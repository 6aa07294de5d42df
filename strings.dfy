/** An optional value: a configuration key that may be absent. */
module Wrappers {

  datatype Option<+T> = None | Some(value: T) {

    /** The wrapped value, or `default` when absent. */
    function GetOr(default: T): T
    {
      match this
      case Some(v) => v
      case None => default
    }
  }
}

/**
 * The string operations the watcher relies on: `Array.prototype.join`,
 * `String.prototype.replaceAll` with a string pattern, substring search and
 * ASCII case folding, with the lemmas that characterise them.
 */
module Strings {

  /** `parts` with `sep` between neighbours; the empty list joins to "". */
  function Join(parts: seq<string>, sep: string): string
  {
    if parts == [] then []
    else if |parts| == 1 then parts[0]
    else parts[0] + sep + Join(parts[1..], sep)
  }

  /** `pat` starts at index `i` of `s`. */
  predicate OccursAt(s: string, pat: string, i: nat)
  {
    i <= |s| && pat <= s[i..]
  }

  /** `pat` occurs somewhere in `s`. */
  predicate Contains(s: string, pat: string)
  {
    exists i: nat | i <= |s| :: OccursAt(s, pat, i)
  }

  /**
   * Every non-overlapping occurrence of `pat`, found scanning left to right,
   * replaced by `rep`; the text is otherwise copied.
   */
  function ReplaceAll(s: string, pat: string, rep: string): string
    requires pat != []
    decreases |s|
  {
    if s == [] then []
    else if pat <= s then rep + ReplaceAll(s[|pat|..], pat, rep)
    else [s[0]] + ReplaceAll(s[1..], pat, rep)
  }

  /**
   * The pieces of `s` between the occurrences of `pat` that ReplaceAll
   * finds: `s` is `Join(Pieces(s, pat), pat)`.
   */
  function Pieces(s: string, pat: string): (ps: seq<string>)
    requires pat != []
    ensures |ps| >= 1
    ensures |ps| == 1 ==> ps[0] == s
    decreases |s|
  {
    if s == [] then [[]]
    else if pat <= s then [[]] + Pieces(s[|pat|..], pat)
    else
      var rest := Pieces(s[1..], pat);
      [[s[0]] + rest[0]] + rest[1..]
  }

  function LowerChar(c: char): char
  {
    if 'A' <= c <= 'Z' then (c as int - 'A' as int + 'a' as int) as char else c
  }

  /** `s` with every ASCII capital replaced by its small letter. */
  function Lower(s: string): string
  {
    seq(|s|, i requires 0 <= i < |s| => LowerChar(s[i]))
  }

  /** Case-insensitive substring search. */
  predicate ContainsFolded(text: string, word: string)
  {
    Contains(Lower(text), Lower(word))
  }

  // ---------------------------------------------------------------- lemmas

  /** Joining yields "" only for no parts or a single empty part. */
  lemma {:induction false} JoinEmpty(parts: seq<string>, sep: string)
    requires sep != []
    ensures Join(parts, sep) == [] <==> parts == [] || parts == [[]]
  {
    if |parts| >= 2 {
      assert |Join(parts, sep)| >= |sep|;
    }
  }

  /** The first piece is a prefix of the joined text. */
  lemma JoinFirstIsPrefix(parts: seq<string>, sep: string)
    requires parts != []
    ensures parts[0] <= Join(parts, sep)
  {
    if |parts| >= 2 {
      assert Join(parts, sep) == parts[0] + (sep + Join(parts[1..], sep));
    }
  }

  /** Where `pat` occurs at `i`, its `k`-th character is the text's `i + k`-th. */
  lemma OccursAtChar(s: string, pat: string, i: nat, k: nat)
    requires k < |pat|
    ensures OccursAt(s, pat, i) ==> i + k < |s| && pat[k] == s[i + k]
  {
    if OccursAt(s, pat, i) {
      assert pat[k] == s[i..][k];
    }
  }

  lemma OccursShift(c: string, s: string, pat: string, i: nat)
    requires i <= |s|
    ensures OccursAt(c + s, pat, i + |c|) <==> OccursAt(s, pat, i)
  {
    assert (c + s)[i + |c|..] == s[i..];
  }

  /** Text without an occurrence of `pat` comes out of ReplaceAll unchanged. */
  lemma {:induction false} ReplaceAllAbsent(s: string, pat: string, rep: string)
    requires pat != []
    requires !Contains(s, pat)
    ensures ReplaceAll(s, pat, rep) == s
    decreases |s|
  {
    if s == [] {
    } else if pat <= s {
      assert OccursAt(s, pat, 0);
    } else {
      assert s == [s[0]] + s[1..];
      forall i: nat | i <= |s[1..]| ensures !OccursAt(s[1..], pat, i) {
        OccursShift([s[0]], s[1..], pat, i);
      }
      ReplaceAllAbsent(s[1..], pat, rep);
    }
  }

  lemma JoinCons(first: string, rest: seq<string>, sep: string)
    requires rest != []
    ensures Join([first] + rest, sep) == first + sep + Join(rest, sep)
  {
    assert ([first] + rest)[1..] == rest;
  }

  /** Prepending a character to the first part prepends it to the joined text. */
  lemma JoinExtendFirst(c: char, parts: seq<string>, sep: string)
    requires parts != []
    ensures Join([[c] + parts[0]] + parts[1..], sep) == [c] + Join(parts, sep)
  {
    if |parts| > 1 {
      JoinCons([c] + parts[0], parts[1..], sep);
      JoinCons(parts[0], parts[1..], sep);
      assert parts == [parts[0]] + parts[1..];
    }
  }

  /** Joining the pieces of `s` with `sep` in place of `pat` is ReplaceAll with `sep`. */
  lemma {:induction false} JoinPieces(s: string, pat: string, sep: string)
    requires pat != []
    ensures Join(Pieces(s, pat), sep) == ReplaceAll(s, pat, sep)
    decreases |s|
  {
    if s == [] {
    } else if pat <= s {
      var rest := Pieces(s[|pat|..], pat);
      JoinPieces(s[|pat|..], pat, sep);
      assert Pieces(s, pat) == [[]] + rest;
      JoinCons([], rest, sep);
    } else {
      var rest := Pieces(s[1..], pat);
      JoinPieces(s[1..], pat, sep);
      assert Pieces(s, pat) == [[s[0]] + rest[0]] + rest[1..];
      JoinExtendFirst(s[0], rest, sep);
    }
  }

  /** Replacing every occurrence of `pat` by itself gives back the text. */
  lemma {:induction false} ReplaceAllSelf(s: string, pat: string)
    requires pat != []
    ensures ReplaceAll(s, pat, pat) == s
    decreases |s|
  {
    if s == [] {
    } else if pat <= s {
      ReplaceAllSelf(s[|pat|..], pat);
      assert s == pat + s[|pat|..];
    } else {
      ReplaceAllSelf(s[1..], pat);
      assert s == [s[0]] + s[1..];
    }
  }

  /** No piece contains `pat`. */
  lemma {:induction false} PiecesFree(s: string, pat: string)
    requires pat != []
    ensures forall k :: 0 <= k < |Pieces(s, pat)| ==> !Contains(Pieces(s, pat)[k], pat)
    decreases |s|
  {
    var ps := Pieces(s, pat);
    if s == [] {
      assert !OccursAt([], pat, 0);
    } else if pat <= s {
      var rest := Pieces(s[|pat|..], pat);
      PiecesFree(s[|pat|..], pat);
      assert ps == [[]] + rest;
      assert !OccursAt([], pat, 0);
      forall k | 0 <= k < |ps| ensures !Contains(ps[k], pat) {
        if k > 0 { assert ps[k] == rest[k - 1]; }
      }
    } else {
      var rest := Pieces(s[1..], pat);
      PiecesFree(s[1..], pat);
      var first := [s[0]] + rest[0];
      assert ps == [first] + rest[1..];
      // the new first piece is a prefix of s, which does not start with pat
      JoinPieces(s[1..], pat, pat);
      ReplaceAllSelf(s[1..], pat);
      JoinFirstIsPrefix(rest, pat);
      assert s == [s[0]] + s[1..];
      assert first <= s;
      forall i: nat | i <= |first| ensures !OccursAt(first, pat, i) {
        if i == 0 {
          assert !(pat <= first);
        } else {
          OccursShift([s[0]], rest[0], pat, i - 1);
          assert !OccursAt(rest[0], pat, i - 1);
        }
      }
      forall k | 0 <= k < |ps| ensures !Contains(ps[k], pat) {
        if k > 0 { assert ps[k] == rest[k]; }
      }
    }
  }

  /**
   * ReplaceAll replaces every occurrence: the input is its pieces joined by
   * `pat`, no piece contains `pat`, and the output is the same pieces joined
   * by `rep`.
   */
  lemma ReplaceAllIsJoinOfPieces(s: string, pat: string, rep: string)
    requires pat != []
    ensures Join(Pieces(s, pat), pat) == s
    ensures ReplaceAll(s, pat, rep) == Join(Pieces(s, pat), rep)
    ensures forall k :: 0 <= k < |Pieces(s, pat)| ==> !Contains(Pieces(s, pat)[k], pat)
  {
    JoinPieces(s, pat, pat);
    ReplaceAllSelf(s, pat);
    JoinPieces(s, pat, rep);
    PiecesFree(s, pat);
  }

  /**
   * When no occurrence of `pat` straddles the boundary between `x` and `z`,
   * ReplaceAll works on the two parts independently.
   */
  lemma {:induction false} ReplaceAllConcat(x: string, z: string, pat: string, rep: string)
    requires pat != []
    requires forall i: nat :: i < |x| < i + |pat| ==> !OccursAt(x + z, pat, i)
    ensures ReplaceAll(x + z, pat, rep) == ReplaceAll(x, pat, rep) + ReplaceAll(z, pat, rep)
    decreases |x|
  {
    if x == [] {
      assert x + z == z;
    } else if pat <= x + z {
      assert OccursAt(x + z, pat, 0);
      assert |pat| <= |x|;
      assert pat <= x;
      var x' := x[|pat|..];
      assert (x + z)[|pat|..] == x' + z;
      forall i: nat | i < |x'| < i + |pat| ensures !OccursAt(x' + z, pat, i) {
        assert x + z == pat + (x' + z);
        OccursShift(pat, x' + z, pat, i);
      }
      ReplaceAllConcat(x', z, pat, rep);
    } else {
      assert !(pat <= x);
      var x' := x[1..];
      assert (x + z)[1..] == x' + z;
      forall i: nat | i < |x'| < i + |pat| ensures !OccursAt(x' + z, pat, i) {
        assert x + z == [x[0]] + (x' + z);
        OccursShift([x[0]], x' + z, pat, i);
      }
      ReplaceAllConcat(x', z, pat, rep);
    }
  }

  /** The letters of `word`, folded to lower case, start at index `i` of the folded text. */
  lemma FoldedAt(text: string, word: string, i: nat)
    requires i + |word| <= |text|
    requires forall k :: 0 <= k < |word| ==> LowerChar(text[i + k]) == LowerChar(word[k])
    ensures ContainsFolded(text, word)
  {
    var t, w := Lower(text), Lower(word);
    assert w == t[i..i + |word|];
    assert OccursAt(t, w, i);
  }
}
