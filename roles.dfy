/**
 * Role-reference rewriting (`replaceRoles`, index.js:123-132): every
 * `<@&key>` of a role configured for the channel becomes `**@name**`
 * (bold) or `@name` (plain).
 */
module Roles {
  import opened Strings
  import opened Config

  /** Opening of a role reference; the reference is `<@&` id `>`. */
  const REF_OPEN: string := "<@&"

  function RoleRef(key: string): string
  {
    REF_OPEN + key + ">"
  }

  /** The display text a reference is replaced by. */
  function Label(name: string, bold: bool): string
  {
    if bold then "**@" + name + "**" else "@" + name
  }

  predicate IsDigit(c: char)
  {
    '0' <= c <= '9'
  }

  /** A non-empty run of decimal digits: the ids `\d+` accepts. */
  predicate Digits(key: string)
  {
    key != [] && forall k | 0 <= k < |key| :: IsDigit(key[k])
  }

  /** `s[i..j]` is a role reference `<@&` digits `>` with at least one digit. */
  predicate RefAt(s: string, i: nat, j: nat)
  {
    && i + 5 <= j <= |s|
    && s[i..i + 3] == REF_OPEN
    && s[j - 1] == '>'
    && forall k | i + 3 <= k < j - 1 :: IsDigit(s[k])
  }

  /** The fast-path test `<@&\d+>` of index.js:26 and index.js:124. */
  predicate HasRoleRef(s: string)
  {
    exists i: nat, j: nat | i < j <= |s| :: RefAt(s, i, j)
  }

  /** The roles configured for a channel; none for a channel without a rule (index.js:128). */
  function RolesFor(table: Table, channelId: string): seq<Role>
  {
    if channelId in table then table[channelId].roles else []
  }

  /** `text` after replacing the references of each role of `roles`, one role after another. */
  function ApplyRoles(text: string, roles: seq<Role>, bold: bool): string
  {
    if roles == [] then text
    else
      var last := roles[|roles| - 1];
      ReplaceAll(ApplyRoles(text, roles[..|roles| - 1], bold), RoleRef(last.key), Label(last.name, bold))
  }

  /** What `replaceRoles` returns: the text itself when it holds no reference at all. */
  function RolesReplaced(text: string, roles: seq<Role>, bold: bool): string
  {
    if HasRoleRef(text) then ApplyRoles(text, roles, bold) else text
  }

  /** `replaceRoles(text, channelId, bold)`: the loop over the channel's role entries. */
  method ReplaceRoles(text: string, table: Table, channelId: string, bold: bool) returns (res: string)
    ensures res == RolesReplaced(text, RolesFor(table, channelId), bold)
    ensures !HasRoleRef(text) ==> res == text
    ensures channelId !in table ==> res == text
  {
    if !HasRoleRef(text) {
      return text;
    }
    var roles := RolesFor(table, channelId);
    res := text;
    var i := 0;
    while i < |roles|
      invariant 0 <= i <= |roles|
      invariant res == ApplyRoles(text, roles[..i], bold)
    {
      assert roles[..i + 1][..i] == roles[..i];
      res := ReplaceAll(res, RoleRef(roles[i].key), Label(roles[i].name, bold));
      i := i + 1;
    }
    assert roles[..|roles|] == roles;
  }

  // ------------------------------------------------------ bracket structure

  predicate NoBrackets(s: string)
  {
    forall k | 0 <= k < |s| :: s[k] != '<' && s[k] != '>'
  }

  /** `<`, then text without angle brackets, then `>`. */
  predicate Bracketed(s: string)
  {
    |s| >= 2 && s[0] == '<' && s[|s| - 1] == '>' && NoBrackets(s[1..|s| - 1])
  }

  function Interior(s: string): string
    requires |s| >= 2
  {
    s[1..|s| - 1]
  }

  lemma RoleRefShape(key: string)
    requires NoBrackets(key)
    ensures Bracketed(RoleRef(key))
    ensures Interior(RoleRef(key)) == "@&" + key
  {
    assert Interior(RoleRef(key)) == "@&" + key;
  }

  lemma RoleRefInjective(a: string, b: string)
    requires RoleRef(a) == RoleRef(b)
    ensures a == b
  {
    assert a == RoleRef(a)[3..|RoleRef(a)| - 1];
    assert b == RoleRef(b)[3..|RoleRef(b)| - 1];
  }

  /** No occurrence of a bracketed `pat` straddles a boundary followed by `<`. */
  lemma NoCrossBeforeOpen(x: string, rest: string, pat: string)
    requires Bracketed(pat)
    requires rest != [] && rest[0] == '<'
    ensures forall i: nat :: i < |x| < i + |pat| ==> !OccursAt(x + rest, pat, i)
  {
    forall i: nat | i < |x| < i + |pat| ensures !OccursAt(x + rest, pat, i) {
      var t := |x| - i;
      OccursAtChar(x + rest, pat, i, t);
      if t < |pat| - 1 {
        assert Interior(pat)[t - 1] == pat[t];
      }
    }
  }

  /** ReplaceAll treats the text before a `<` and the text from it on separately. */
  lemma SplitBeforeOpen(x: string, rest: string, pat: string, rep: string)
    requires Bracketed(pat)
    requires rest != [] && rest[0] == '<'
    ensures ReplaceAll(x + rest, pat, rep) == ReplaceAll(x, pat, rep) + ReplaceAll(rest, pat, rep)
  {
    NoCrossBeforeOpen(x, rest, pat);
    ReplaceAllConcat(x, rest, pat, rep);
  }

  /** A bracketed text other than `pat` survives ReplaceAll and separates what follows it. */
  lemma SplitAfterBracketed(u: string, y: string, pat: string, rep: string)
    requires Bracketed(pat) && Bracketed(u) && u != pat
    ensures ReplaceAll(u + y, pat, rep) == u + ReplaceAll(y, pat, rep)
  {
    forall i: nat | i < |u| < i + |pat| ensures !OccursAt(u + y, pat, i) {
      if i == 0 {
        OccursAtChar(u + y, pat, 0, |u| - 1);
        assert Interior(pat)[|u| - 2] == pat[|u| - 1];
      } else {
        OccursAtChar(u + y, pat, i, 0);
        if i < |u| - 1 { assert Interior(u)[i - 1] == u[i]; }
      }
    }
    ReplaceAllConcat(u, y, pat, rep);
    forall i: nat | i <= |u| ensures !OccursAt(u, pat, i) {
      if i == 0 {
        if |pat| == |u| {
          assert OccursAt(u, pat, 0) ==> pat == u;
        } else if |pat| < |u| {
          OccursAtChar(u, pat, 0, |pat| - 1);
          assert Interior(u)[|pat| - 2] == u[|pat| - 1];
        }
      } else if i < |u| - 1 {
        OccursAtChar(u, pat, i, 0);
        assert Interior(u)[i - 1] == u[i];
      }
    }
    ReplaceAllAbsent(u, pat, rep);
  }

  /** A text without angle brackets survives ReplaceAll and separates what follows it. */
  lemma SplitAfterPlain(l: string, y: string, pat: string, rep: string)
    requires Bracketed(pat) && NoBrackets(l)
    ensures ReplaceAll(l + y, pat, rep) == l + ReplaceAll(y, pat, rep)
  {
    forall i: nat | i < |l| < i + |pat| ensures !OccursAt(l + y, pat, i) {
      OccursAtChar(l + y, pat, i, 0);
    }
    ReplaceAllConcat(l, y, pat, rep);
    forall i: nat | i <= |l| ensures !OccursAt(l, pat, i) {
      if i < |l| {
        OccursAtChar(l, pat, i, 0);
      }
    }
    ReplaceAllAbsent(l, pat, rep);
  }

  /**
   * No occurrence of `pat` straddles the boundary before a bracket-free
   * text that cannot sit inside `pat` itself.
   */
  lemma NoCrossBeforePlain(x: string, l: string, y: string, pat: string)
    requires Bracketed(pat) && NoBrackets(l)
    requires !Contains(Interior(pat), l)
    ensures forall i: nat :: i < |x| < i + |pat| ==> !OccursAt(x + (l + y), pat, i)
  {
    forall i: nat | i < |x| < i + |pat| ensures !OccursAt(x + (l + y), pat, i) {
      var s := x + (l + y);
      var t := |x| - i;
      if i + |pat| <= |x| + |l| {
        OccursAtChar(s, pat, i, |pat| - 1);
        assert s[i + |pat| - 1] == l[i + |pat| - 1 - |x|];
      } else {
        var inner := Interior(pat);
        assert OccursAt(s, pat, i) ==> OccursAt(inner, l, t - 1) by {
          if OccursAt(s, pat, i) {
            forall m | 0 <= m < |l| ensures l[m] == inner[t - 1 + m] {
              assert l[m] == s[|x| + m] == s[i..][t + m] == pat[t + m];
            }
            assert l == inner[t - 1..t - 1 + |l|];
          }
        }
      }
    }
  }

  /** An occurrence of `pat` itself, between any texts, becomes `rep`. */
  lemma ReplaceAroundRef(x: string, y: string, pat: string, rep: string)
    requires Bracketed(pat)
    ensures ReplaceAll(x + pat + y, pat, rep) == ReplaceAll(x, pat, rep) + rep + ReplaceAll(y, pat, rep)
  {
    assert x + pat + y == x + (pat + y);
    SplitBeforeOpen(x, pat + y, pat, rep);
    assert (pat + y)[|pat|..] == y;
  }

  /** Another bracketed text, between any texts, is left as it is. */
  lemma ReplaceAroundOther(x: string, u: string, y: string, pat: string, rep: string)
    requires Bracketed(pat) && Bracketed(u) && u != pat
    ensures ReplaceAll(x + u + y, pat, rep) == ReplaceAll(x, pat, rep) + u + ReplaceAll(y, pat, rep)
  {
    assert x + u + y == x + (u + y);
    SplitBeforeOpen(x, u + y, pat, rep);
    SplitAfterBracketed(u, y, pat, rep);
  }

  /** A bracket-free text that cannot sit inside `pat`, between any texts, is left as it is. */
  lemma ReplaceAroundPlain(x: string, l: string, y: string, pat: string, rep: string)
    requires Bracketed(pat) && NoBrackets(l)
    requires !Contains(Interior(pat), l)
    ensures ReplaceAll(x + l + y, pat, rep) == ReplaceAll(x, pat, rep) + l + ReplaceAll(y, pat, rep)
  {
    assert x + l + y == x + (l + y);
    NoCrossBeforePlain(x, l, y, pat);
    ReplaceAllConcat(x, l + y, pat, rep);
    SplitAfterPlain(l, y, pat, rep);
  }

  // ---------------------------------------------------------------- lemmas

  /**
   * A reference to an id that no role is configured for is left untouched,
   * and the texts on either side are rewritten independently (role ids,
   * like the Discord ids they are, contain no angle brackets).
   */
  lemma {:induction false} UnconfiguredRefUntouched(x: string, id: string, y: string, roles: seq<Role>, bold: bool)
    requires NoBrackets(id)
    requires forall r | r in roles :: NoBrackets(r.key) && r.key != id
    ensures ApplyRoles(x + RoleRef(id) + y, roles, bold)
         == ApplyRoles(x, roles, bold) + RoleRef(id) + ApplyRoles(y, roles, bold)
  {
    if roles != [] {
      var n := |roles| - 1;
      var last := roles[n];
      assert last in roles;
      UnconfiguredRefUntouched(x, id, y, roles[..n], bold);
      RoleRefShape(id);
      RoleRefShape(last.key);
      if RoleRef(id) == RoleRef(last.key) { RoleRefInjective(id, last.key); }
      ReplaceAroundOther(ApplyRoles(x, roles[..n], bold), RoleRef(id), ApplyRoles(y, roles[..n], bold),
                         RoleRef(last.key), Label(last.name, bold));
    }
  }

  lemma ApplyRolesLast(text: string, roles: seq<Role>, bold: bool)
    requires roles != []
    ensures ApplyRoles(text, roles, bold)
         == ReplaceAll(ApplyRoles(text, roles[..|roles| - 1], bold),
                       RoleRef(roles[|roles| - 1].key), Label(roles[|roles| - 1].name, bold))
  {
  }

  /**
   * Every reference to a configured role is replaced by that role's label,
   * and the texts on either side are rewritten independently. The role is
   * the first entry with its id; its label has no angle brackets and
   * cannot sit inside a later role's reference (so later roles leave it
   * alone).
   */
  lemma {:induction false} ConfiguredRefReplaced(x: string, y: string, roles: seq<Role>, j: nat, bold: bool)
    requires j < |roles|
    requires forall r | r in roles :: NoBrackets(r.key)
    requires forall i | 0 <= i < j :: roles[i].key != roles[j].key
    requires NoBrackets(Label(roles[j].name, bold))
    requires forall i | j < i < |roles| :: !Contains("@&" + roles[i].key, Label(roles[j].name, bold))
    ensures ApplyRoles(x + RoleRef(roles[j].key) + y, roles, bold)
         == ApplyRoles(x, roles, bold) + Label(roles[j].name, bold) + ApplyRoles(y, roles, bold)
  {
    var n := |roles| - 1;
    if j == n {
      RefReplacedByLast(x, y, roles, bold);
    } else {
      var init := roles[..n];
      var display := Label(roles[j].name, bold);
      InitKeysNoBrackets(roles);
      assert init[j] == roles[j];
      forall i | 0 <= i < j ensures init[i].key != init[j].key {
        assert init[i] == roles[i];
      }
      forall i | j < i < |init| ensures !Contains("@&" + init[i].key, display) {
        assert init[i] == roles[i];
      }
      ConfiguredRefReplaced(x, y, init, j, bold);
      RefKeptByLast(x, y, roles, j, bold);
    }
  }

  /** The step where the last role is the one referenced: its pass replaces the reference. */
  lemma RefReplacedByLast(x: string, y: string, roles: seq<Role>, bold: bool)
    requires roles != []
    requires forall r | r in roles :: NoBrackets(r.key)
    requires forall i | 0 <= i < |roles| - 1 :: roles[i].key != roles[|roles| - 1].key
    ensures ApplyRoles(x + RoleRef(roles[|roles| - 1].key) + y, roles, bold)
         == ApplyRoles(x, roles, bold) + Label(roles[|roles| - 1].name, bold) + ApplyRoles(y, roles, bold)
  {
    var n := |roles| - 1;
    var init := roles[..n];
    var key, display := roles[n].key, Label(roles[n].name, bold);
    var x', y' := ApplyRoles(x, init, bold), ApplyRoles(y, init, bold);
    ApplyRolesLast(x + RoleRef(key) + y, roles, bold);
    ApplyRolesLast(x, roles, bold);
    ApplyRolesLast(y, roles, bold);
    InitKeysNoBrackets(roles);
    assert roles[n] in roles;
    forall r | r in init ensures r.key != key {
      var i :| 0 <= i < n && init[i] == r;
      assert roles[i] == r;
    }
    UnconfiguredRefUntouched(x, key, y, init, bold);
    RoleRefShape(key);
    ReplaceAroundRef(x', y', RoleRef(key), display);
  }

  /**
   * The step past the referenced role: once the reference has become a label,
   * the last role's pass keeps the label and rewrites the texts around it.
   */
  lemma RefKeptByLast(x: string, y: string, roles: seq<Role>, j: nat, bold: bool)
    requires j < |roles| - 1
    requires forall r | r in roles :: NoBrackets(r.key)
    requires NoBrackets(Label(roles[j].name, bold))
    requires !Contains("@&" + roles[|roles| - 1].key, Label(roles[j].name, bold))
    requires ApplyRoles(x + RoleRef(roles[j].key) + y, roles[..|roles| - 1], bold)
          == ApplyRoles(x, roles[..|roles| - 1], bold) + Label(roles[j].name, bold) + ApplyRoles(y, roles[..|roles| - 1], bold)
    ensures ApplyRoles(x + RoleRef(roles[j].key) + y, roles, bold)
         == ApplyRoles(x, roles, bold) + Label(roles[j].name, bold) + ApplyRoles(y, roles, bold)
  {
    var n := |roles| - 1;
    var init := roles[..n];
    var last := roles[n];
    var key, display := roles[j].key, Label(roles[j].name, bold);
    ApplyRolesLast(x + RoleRef(key) + y, roles, bold);
    ApplyRolesLast(x, roles, bold);
    ApplyRolesLast(y, roles, bold);
    assert last in roles;
    RoleRefShape(last.key);
    ReplaceAroundPlain(ApplyRoles(x, init, bold), display, ApplyRoles(y, init, bold), RoleRef(last.key), Label(last.name, bold));
  }

  /** The keys of every role but the last are free of angle brackets when all keys are. */
  lemma InitKeysNoBrackets(roles: seq<Role>)
    requires roles != []
    requires forall r | r in roles :: NoBrackets(r.key)
    ensures forall r | r in roles[..|roles| - 1] :: NoBrackets(r.key)
  {
    forall r | r in roles[..|roles| - 1] ensures r in roles {
      var i :| 0 <= i < |roles| - 1 && roles[..|roles| - 1][i] == r;
      assert roles[i] == r;
    }
  }


  /**
   * With one configured role, every occurrence of its reference is
   * replaced: the text is its reference-free pieces joined by the
   * reference, and the result is the same pieces joined by the label.
   */
  lemma SingleRoleReplacesEveryOccurrence(text: string, role: Role, bold: bool)
    requires HasRoleRef(text)
    ensures Join(Pieces(text, RoleRef(role.key)), RoleRef(role.key)) == text
    ensures RolesReplaced(text, [role], bold) == Join(Pieces(text, RoleRef(role.key)), Label(role.name, bold))
    ensures forall k | 0 <= k < |Pieces(text, RoleRef(role.key))| ::
              !Contains(Pieces(text, RoleRef(role.key))[k], RoleRef(role.key))
  {
    assert [role][..0] == [];
    assert ApplyRoles(text, [], bold) == text;
    assert ApplyRoles(text, [role], bold) == ReplaceAll(text, RoleRef(role.key), Label(role.name, bold));
    ReplaceAllIsJoinOfPieces(text, RoleRef(role.key), Label(role.name, bold));
  }

  /** A channel without roles has its texts returned as they are, references included. */
  lemma NoRolesNoChange(text: string, table: Table, channelId: string, bold: bool)
    requires channelId !in table || table[channelId].roles == []
    ensures RolesReplaced(text, RolesFor(table, channelId), bold) == text
  {
  }

  /** A text opening with a reference to an all-digit id holds a role reference. */
  lemma LeadingRefDetected(key: string, rest: string)
    requires Digits(key)
    ensures HasRoleRef(RoleRef(key) + rest)
  {
    var text := RoleRef(key) + rest;
    assert text[..3] == REF_OPEN;
    forall k | 3 <= k < |key| + 3 ensures IsDigit(text[k]) {
      assert text[k] == key[k - 3];
    }
    assert RefAt(text, 0, |key| + 4);
  }

  /**
   * The role-reference test holds exactly when `<@&` followed by a
   * non-empty run of digits and `>` occurs somewhere in the text.
   */
  lemma RoleRefTestIff(s: string)
    ensures HasRoleRef(s) <==> exists key: string, i: nat | i <= |s| :: Digits(key) && OccursAt(s, RoleRef(key), i)
  {
    if HasRoleRef(s) {
      var i: nat, j: nat :| i < j <= |s| && RefAt(s, i, j);
      var key := s[i + 3..j - 1];
      forall k | 0 <= k < |key| ensures IsDigit(key[k]) {
        assert key[k] == s[i + 3 + k];
      }
      assert s[i..j] == s[i..i + 3] + key + s[j - 1..j];
      assert RoleRef(key) == s[i..j] <= s[i..];
      assert Digits(key) && OccursAt(s, RoleRef(key), i);
    }
    if exists key: string, i: nat | i <= |s| :: Digits(key) && OccursAt(s, RoleRef(key), i) {
      var key: string, i: nat :| i <= |s| && Digits(key) && OccursAt(s, RoleRef(key), i);
      var j := i + |key| + 4;
      assert s[i..j] == RoleRef(key);
      assert s[i..i + 3] == RoleRef(key)[..3];
      assert s[j - 1] == RoleRef(key)[|key| + 3];
      forall k | i + 3 <= k < j - 1 ensures IsDigit(s[k]) {
        assert s[k] == RoleRef(key)[k - i] == key[k - i - 3];
      }
      assert RefAt(s, i, j);
    }
  }

  /** A text without any digit, such as `<@&>` or `<@&ab>`, never passes the role-reference test. */
  lemma NoDigitNoReference(s: string)
    requires forall k | 0 <= k < |s| :: !IsDigit(s[k])
    ensures !HasRoleRef(s)
  {
    forall i: nat, j: nat | i < j <= |s| ensures !RefAt(s, i, j) {
      if i + 5 <= j {
        assert !IsDigit(s[i + 3]);
      }
    }
  }

  /** A text without angle brackets holds no reference, so no role changes it. */
  lemma {:induction false} PlainTextUnchanged(text: string, roles: seq<Role>, bold: bool)
    requires NoBrackets(text)
    ensures ApplyRoles(text, roles, bold) == text
  {
    if roles != [] {
      var n := |roles| - 1;
      var pat := RoleRef(roles[n].key);
      PlainTextUnchanged(text, roles[..n], bold);
      forall i: nat | i <= |text| ensures !OccursAt(text, pat, i) {
        OccursAtChar(text, pat, i, 0);
      }
      ReplaceAllAbsent(text, pat, Label(roles[n].name, bold));
    }
  }

  /** With a single role, a text opening with its reference opens with its label instead. */
  lemma LeadingRefReplaced(key: string, name: string, rest: string, bold: bool)
    requires NoBrackets(key) && NoBrackets(Label(name, bold))
    ensures ApplyRoles(RoleRef(key) + rest, [Role(key, name)], bold)
         == Label(name, bold) + ApplyRoles(rest, [Role(key, name)], bold)
  {
    var roles := [Role(key, name)];
    assert RoleRef(key) + rest == [] + RoleRef(key) + rest;
    PlainTextUnchanged([], roles, bold);
    ConfiguredRefReplaced([], rest, roles, 0, bold);
  }

  /** With a single role, a reference to another id keeps its place between the rewritten texts. */
  lemma TrailingRefKept(key: string, name: string, mid: string, other: string, bold: bool)
    requires NoBrackets(key) && NoBrackets(other) && key != other
    requires NoBrackets(mid)
    ensures ApplyRoles(mid + RoleRef(other), [Role(key, name)], bold) == mid + RoleRef(other)
  {
    var roles := [Role(key, name)];
    assert mid + RoleRef(other) == mid + RoleRef(other) + [];
    PlainTextUnchanged([], roles, bold);
    PlainTextUnchanged(mid, roles, bold);
    UnconfiguredRefUntouched(mid, other, [], roles, bold);
  }

  /** Digits are not angle brackets. */
  lemma DigitsNoBrackets(key: string)
    requires Digits(key)
    ensures NoBrackets(key)
  {
    forall k | 0 <= k < |key| ensures key[k] != '<' && key[k] != '>' {
      assert IsDigit(key[k]);
    }
  }

  /**
   * A known reference followed by an unknown one, as in `<@&111> ping
   * <@&999>` with role 111 named Alice becoming `**@Alice** ping <@&999>`:
   * the configured reference is replaced by its label, the text between
   * is kept and the reference to an unconfigured id is left as it is.
   */
  lemma KnownAndUnknownReference(key: string, name: string, mid: string, other: string, bold: bool)
    requires Digits(key)
    requires NoBrackets(mid) && NoBrackets(other) && key != other
    requires NoBrackets(Label(name, bold))
    ensures RolesReplaced(RoleRef(key) + mid + RoleRef(other), [Role(key, name)], bold)
         == Label(name, bold) + mid + RoleRef(other)
  {
    var rest := mid + RoleRef(other);
    DigitsNoBrackets(key);
    LeadingRefDetected(key, rest);
    LeadingRefReplaced(key, name, rest, bold);
    TrailingRefKept(key, name, mid, other, bold);
    assert RoleRef(key) + mid + RoleRef(other) == RoleRef(key) + rest;
  }
}
