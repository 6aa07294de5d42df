/**
 * Rule-table compilation: the watcher folds its list of per-channel
 * configuration entries into a table from channel id to compiled rule
 * (index.js:8-22).
 */
module Config {
  import opened Wrappers
  import opened Strings
  import opened Patterns

  /**
   * Key under which an entry without `watchChannelIds` is registered: the
   * absent value is wrapped into a one-element list and used as an object
   * key, which turns it into this string.
   */
  const UNDEFINED_KEY: string := "undefined"

  /** One entry of a rule's `roles` object: role id and display name, in key order. */
  datatype Role = Role(key: string, name: string)

  /** `watchChannelIds` as written in the configuration: absent, one id, or a list. */
  datatype ChannelIds = Unset | Single(id: string) | Several(ids: seq<string>)

  /** A configuration entry before compilation; absent keys are `None`. */
  datatype RawEntry = RawEntry(
    watchChannelIds: ChannelIds,
    roles: Option<seq<Role>>,
    keywords: Option<seq<string>>,
    authors: Option<seq<string>>,
    useRolesAsKeywords: bool,
    webhookUrl: Option<string>)

  /** A compiled rule: defaults filled in and the match pattern built. */
  datatype Rule = Rule(
    roles: seq<Role>,
    keywords: seq<string>,
    authors: seq<string>,
    webhookUrl: Option<string>,
    pattern: Pattern)

  type Table = map<string, Rule>

  function RoleKeys(roles: seq<Role>): seq<string>
  {
    seq(|roles|, i requires 0 <= i < |roles| => roles[i].key)
  }

  function RoleNames(roles: seq<Role>): seq<string>
  {
    seq(|roles|, i requires 0 <= i < |roles| => roles[i].name)
  }

  /** The ids an entry is registered under; a single id becomes a one-element list. */
  function WatchIds(ids: ChannelIds): seq<string>
  {
    match ids
    case Unset => [UNDEFINED_KEY]
    case Single(id) => [id]
    case Several(list) => list
  }

  /** The rule compiled from one entry (index.js:9-18). */
  function CompileEntry(e: RawEntry): Rule
  {
    var roles := e.roles.GetOr([]);
    var given := e.keywords.GetOr([]);
    var keywords := if e.useRolesAsKeywords then given + RoleNames(roles) else given;
    Rule(roles, keywords, e.authors.GetOr([]), e.webhookUrl, Compile(RoleKeys(roles) + keywords))
  }

  /** `memo` with every id of `ids`, in order, assigned `rule` (index.js:20). */
  function Register(memo: Table, ids: seq<string>, rule: Rule): Table
  {
    if ids == [] then memo
    else Register(memo, ids[..|ids| - 1], rule)[ids[|ids| - 1] := rule]
  }

  /** The table after folding every entry, in order, into an empty one. */
  function CompileTable(entries: seq<RawEntry>): Table
  {
    if entries == [] then map[]
    else
      var last := entries[|entries| - 1];
      Register(CompileTable(entries[..|entries| - 1]), WatchIds(last.watchChannelIds), CompileEntry(last))
  }

  /** The reduce at index.js:8-22: one pass over the entries, one inner pass over each entry's ids. */
  method CompileConfig(entries: seq<RawEntry>) returns (table: Table)
    ensures table == CompileTable(entries)
  {
    table := map[];
    var i := 0;
    while i < |entries|
      invariant 0 <= i <= |entries|
      invariant table == CompileTable(entries[..i])
    {
      var rule := CompileEntry(entries[i]);
      var ids := WatchIds(entries[i].watchChannelIds);
      ghost var memo := table;
      var k := 0;
      while k < |ids|
        invariant 0 <= k <= |ids|
        invariant table == Register(memo, ids[..k], rule)
      {
        assert ids[..k + 1][..k] == ids[..k];
        table := table[ids[k] := rule];
        k := k + 1;
      }
      assert ids[..|ids|] == ids;
      assert entries[..i + 1][..i] == entries[..i];
      i := i + 1;
    }
    assert entries[..|entries|] == entries;
  }

  // ---------------------------------------------------------------- lemmas

  /** Registering assigns `rule` to exactly the listed ids and keeps every other key. */
  lemma {:induction false} RegisterLookup(memo: Table, ids: seq<string>, rule: Rule, c: string)
    ensures c in Register(memo, ids, rule) <==> c in memo || c in ids
    ensures c in ids ==> Register(memo, ids, rule)[c] == rule
    ensures c !in ids && c in memo ==> Register(memo, ids, rule)[c] == memo[c]
  {
    if ids != [] {
      var init := ids[..|ids| - 1];
      RegisterLookup(memo, init, rule, c);
      assert ids == init + [ids[|ids| - 1]];
      assert c in ids <==> c in init || c == ids[|ids| - 1];
    }
  }

  /** Some entry of `entries` lists channel `c`. */
  ghost predicate Listed(entries: seq<RawEntry>, c: string)
  {
    exists k | 0 <= k < |entries| :: c in WatchIds(entries[k].watchChannelIds)
  }

  lemma ListedSnoc(entries: seq<RawEntry>, c: string)
    requires entries != []
    ensures Listed(entries, c)
        <==> Listed(entries[..|entries| - 1], c) || c in WatchIds(entries[|entries| - 1].watchChannelIds)
  {
    var init := entries[..|entries| - 1];
    if Listed(entries, c) {
      var k :| 0 <= k < |entries| && c in WatchIds(entries[k].watchChannelIds);
      if k < |init| { assert init[k] == entries[k]; }
    }
    if Listed(init, c) {
      var k :| 0 <= k < |init| && c in WatchIds(init[k].watchChannelIds);
      assert init[k] == entries[k];
    }
  }

  /** A channel is in the table exactly when some entry lists it. */
  lemma {:induction false} CompileTableDomain(entries: seq<RawEntry>, c: string)
    ensures c in CompileTable(entries) <==> Listed(entries, c)
  {
    if entries != [] {
      var n := |entries| - 1;
      var init := entries[..n];
      var ids := WatchIds(entries[n].watchChannelIds);
      assert CompileTable(entries) == Register(CompileTable(init), ids, CompileEntry(entries[n]));
      CompileTableDomain(init, c);
      RegisterLookup(CompileTable(init), ids, CompileEntry(entries[n]), c);
      ListedSnoc(entries, c);
    }
  }

  /**
   * Every channel listed by an entry maps to that entry's compiled rule,
   * unless a later entry lists it too: the last entry wins.
   */
  lemma {:induction false} LastEntryWins(entries: seq<RawEntry>, k: nat, c: string)
    requires k < |entries|
    requires c in WatchIds(entries[k].watchChannelIds)
    requires forall j | k < j < |entries| :: c !in WatchIds(entries[j].watchChannelIds)
    ensures c in CompileTable(entries) && CompileTable(entries)[c] == CompileEntry(entries[k])
  {
    var n := |entries| - 1;
    var init := entries[..n];
    RegisterLookup(CompileTable(init), WatchIds(entries[n].watchChannelIds), CompileEntry(entries[n]), c);
    if k < n {
      forall j | k < j < |init| ensures c !in WatchIds(init[j].watchChannelIds) {
        assert init[j] == entries[j];
      }
      assert init[k] == entries[k];
      LastEntryWins(init, k, c);
    }
  }

  /** A single id is registered as a one-element list. */
  lemma SingleIdTable(e: RawEntry, id: string)
    requires e.watchChannelIds == Single(id)
    ensures CompileTable([e]) == map[id := CompileEntry(e)]
  {
    assert [e][..0] == [];
    assert [id][..0] == [];
    assert CompileTable([e]) == Register(map[], [id], CompileEntry(e));
    assert Register(map[], [id], CompileEntry(e)) == Register(map[], [], CompileEntry(e))[id := CompileEntry(e)];
  }

  /**
   * The compiled rule: absent `roles`, `keywords` and `authors` become empty,
   * given ones are kept, and so is the webhook;
   * with `useRolesAsKeywords` the keywords are the given ones followed by
   * every role name in order; the pattern's alternatives are the role keys
   * followed by the keywords, and it is the impossible one exactly when
   * those join to nothing.
   */
  lemma CompiledRule(e: RawEntry)
    ensures e.roles.None? ==> CompileEntry(e).roles == []
    ensures CompileEntry(e).authors == e.authors.GetOr([])
    ensures CompileEntry(e).webhookUrl == e.webhookUrl
    ensures e.roles.Some? ==> CompileEntry(e).roles == e.roles.value
    ensures CompileEntry(e).keywords
         == e.keywords.GetOr([]) + (if e.useRolesAsKeywords then RoleNames(CompileEntry(e).roles) else [])
    ensures CompileEntry(e).pattern.AnyOf? ==>
              CompileEntry(e).pattern.alternatives == RoleKeys(CompileEntry(e).roles) + CompileEntry(e).keywords
    ensures CompileEntry(e).pattern == Never
        <==> RoleKeys(CompileEntry(e).roles) + CompileEntry(e).keywords in {[], [[]]}
  {
    var r := CompileEntry(e);
    CompileIsNeverIff(RoleKeys(r.roles) + r.keywords);
  }

  /** An entry with no roles and no keywords compiles to the impossible pattern, which matches no text. */
  lemma NoAlternativesMatchNothing(e: RawEntry, text: string)
    requires e.roles.None? || e.roles == Some([])
    requires e.keywords.None? || e.keywords == Some([])
    ensures CompileEntry(e).pattern == Never
    ensures !Test(CompileEntry(e).pattern, text)
  {
    var r := CompileEntry(e);
    assert RoleKeys(r.roles) + r.keywords == [];
  }

  /**
   * With `useRolesAsKeywords`, a role's display name appearing bare in a
   * text, in any case, matches the compiled pattern.
   */
  lemma RoleNameMatchesAsKeyword(e: RawEntry, i: nat, text: string)
    requires e.useRolesAsKeywords && e.roles.Some?
    requires i < |e.roles.value|
    requires ContainsFolded(text, e.roles.value[i].name)
    ensures Test(CompileEntry(e).pattern, text)
  {
    var r := CompileEntry(e);
    var alternatives := RoleKeys(r.roles) + r.keywords;
    var name := e.roles.value[i].name;
    assert RoleNames(r.roles)[i] == name;
    assert r.keywords[|r.keywords| - |r.roles| + i] == name;
    assert name in alternatives;
    assert |alternatives| >= 2;
    CompileIsNeverIff(alternatives);
  }
}
