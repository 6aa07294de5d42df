/** The inbound chat message as the watcher sees it. */
module Messages {

  /**
   * A text slot of an embed: absent (`null`, `undefined`, or a missing
   * author or footer object), a string, or some other value, with the
   * string it converts to and whether it is truthy.
   */
  datatype Value = Missing | Text(s: string) | Other(shown: string, truthy: bool)

  datatype Field = Field(name: Value, value: Value)

  datatype Embed = Embed(
    title: Value,
    description: Value,
    authorName: Value,   // embed.author?.name
    footerText: Value,   // embed.footer?.text
    fields: seq<Field>)

  datatype Attachment = Attachment(url: string)

  datatype Message = Message(
    id: string,
    guildId: string,
    channelId: string,
    authorId: string,
    content: string,
    embeds: seq<Embed>,
    attachments: seq<Attachment>)

  /** JavaScript truthiness: absent values and the empty string are falsy. */
  predicate Truthy(v: Value)
  {
    match v
    case Missing => false
    case Text(s) => s != []
    case Other(_, truthy) => truthy
  }

  /** The string a regular-expression test sees for a present value. */
  function Shown(v: Value): string
  {
    match v
    case Missing => "undefined"
    case Text(s) => s
    case Other(shown, _) => shown
  }
}

/** Deciding whether a message is interesting (`messageMatches`, index.js:47-72). */
module Matching {
  import opened Wrappers
  import opened Patterns
  import opened Config
  import opened Messages

  /** Each field's value, then its name, field by field (index.js:63). */
  function FieldTexts(fields: seq<Field>): seq<Value>
  {
    if fields == [] then [] else [fields[0].value, fields[0].name] + FieldTexts(fields[1..])
  }

  /** The truthy values of `vs`, in order (`filter(n => n)`). */
  function Compact(vs: seq<Value>): seq<Value>
  {
    if vs == [] then [] else (if Truthy(vs[0]) then [vs[0]] else []) + Compact(vs[1..])
  }

  /** The texts of an embed that are tested against the pattern (index.js:62-64). */
  function EmbedTexts(e: Embed): seq<Value>
  {
    Compact([e.title, e.description, e.authorName, e.footerText] + FieldTexts(e.fields))
  }

  predicate EmbedMatches(p: Pattern, e: Embed)
  {
    exists v | v in EmbedTexts(e) :: Test(p, Shown(v))
  }

  /**
   * The message is on a watched channel and its author is listed, or its
   * body matches, or one of its embeds' texts matches (index.js:58-67).
   */
  predicate MessageMatches(table: Table, m: Message)
    ensures MessageMatches(table, m) ==> m.channelId in table
  {
    && m.channelId in table
    && var rule := table[m.channelId];
       || m.authorId in rule.authors
       || Test(rule.pattern, m.content)
       || exists e | e in m.embeds :: EmbedMatches(rule.pattern, e)
  }

  /** A single slot is tested, and matches, only when it is truthy. */
  predicate SlotMatches(p: Pattern, v: Value)
  {
    Truthy(v) && Test(p, Shown(v))
  }

  /** A field text matches, field by field, where some field's value or name matches. */
  predicate SomeFieldMatches(p: Pattern, fields: seq<Field>)
  {
    exists i | 0 <= i < |fields| :: SlotMatches(p, fields[i].value) || SlotMatches(p, fields[i].name)
  }

  /** An embed matches, slot by slot. */
  predicate EmbedSlotsMatch(p: Pattern, e: Embed)
  {
    || SlotMatches(p, e.title)
    || SlotMatches(p, e.description)
    || SlotMatches(p, e.authorName)
    || SlotMatches(p, e.footerText)
    || SomeFieldMatches(p, e.fields)
  }

  // ---------------------------------------------------------------- lemmas

  lemma {:induction false} CompactMembers(vs: seq<Value>, v: Value)
    ensures v in Compact(vs) <==> v in vs && Truthy(v)
  {
    if vs != [] {
      CompactMembers(vs[1..], v);
      assert vs == [vs[0]] + vs[1..];
    }
  }

  lemma {:induction false} FieldTextsMembers(fields: seq<Field>, v: Value)
    ensures v in FieldTexts(fields)
        <==> exists i | 0 <= i < |fields| :: v == fields[i].value || v == fields[i].name
  {
    if fields != [] {
      FieldTextsMembers(fields[1..], v);
      if exists i | 0 <= i < |fields| :: v == fields[i].value || v == fields[i].name {
        var i :| 0 <= i < |fields| && (v == fields[i].value || v == fields[i].name);
        if i > 0 { assert fields[1..][i - 1] == fields[i]; }
      }
      if exists i | 0 <= i < |fields[1..]| :: v == fields[1..][i].value || v == fields[1..][i].name {
        var i :| 0 <= i < |fields[1..]| && (v == fields[1..][i].value || v == fields[1..][i].name);
        assert fields[1..][i] == fields[i + 1];
      }
    }
  }

  /**
   * An embed matches exactly when its title, description, author name,
   * footer text, or some field's value or name is truthy and matches;
   * absent and empty texts are never tested.
   */
  lemma EmbedMatchesIff(p: Pattern, e: Embed)
    ensures EmbedMatches(p, e) <==> EmbedSlotsMatch(p, e)
  {
    var head := [e.title, e.description, e.authorName, e.footerText];
    var all := head + FieldTexts(e.fields);
    if EmbedMatches(p, e) {
      var v :| v in EmbedTexts(e) && Test(p, Shown(v));
      CompactMembers(all, v);
      if v !in head {
        FieldTextsMembers(e.fields, v);
        var i :| 0 <= i < |e.fields| && (v == e.fields[i].value || v == e.fields[i].name);
        assert SlotMatches(p, e.fields[i].value) || SlotMatches(p, e.fields[i].name);
      }
    }
    if EmbedSlotsMatch(p, e) {
      var v: Value;
      if SlotMatches(p, e.title) { v := e.title; }
      else if SlotMatches(p, e.description) { v := e.description; }
      else if SlotMatches(p, e.authorName) { v := e.authorName; }
      else if SlotMatches(p, e.footerText) { v := e.footerText; }
      else {
        var i :| 0 <= i < |e.fields| && (SlotMatches(p, e.fields[i].value) || SlotMatches(p, e.fields[i].name));
        v := if SlotMatches(p, e.fields[i].value) then e.fields[i].value else e.fields[i].name;
        FieldTextsMembers(e.fields, v);
      }
      assert v in all;
      CompactMembers(all, v);
    }
  }

  /**
   * For a watched channel, a message matches exactly when its author is
   * listed, its body matches, or some embed has a truthy title,
   * description, author name, footer text, field value or field name that
   * matches; on any other channel it never matches.
   */
  lemma MessageMatchesIff(table: Table, m: Message)
    ensures MessageMatches(table, m)
        <==> m.channelId in table
             && (|| m.authorId in table[m.channelId].authors
                 || Test(table[m.channelId].pattern, m.content)
                 || exists i | 0 <= i < |m.embeds| :: EmbedSlotsMatch(table[m.channelId].pattern, m.embeds[i]))
  {
    if m.channelId in table {
      var p := table[m.channelId].pattern;
      forall i | 0 <= i < |m.embeds| ensures EmbedMatches(p, m.embeds[i]) <==> EmbedSlotsMatch(p, m.embeds[i]) {
        EmbedMatchesIff(p, m.embeds[i]);
      }
    }
  }

  /** An embed all of whose texts are absent or empty never matches, whatever the pattern. */
  lemma BlankEmbedNeverMatches(p: Pattern, e: Embed)
    requires !Truthy(e.title) && !Truthy(e.description) && !Truthy(e.authorName) && !Truthy(e.footerText)
    requires forall i | 0 <= i < |e.fields| :: !Truthy(e.fields[i].name) && !Truthy(e.fields[i].value)
    ensures !EmbedMatches(p, e)
  {
    EmbedMatchesIff(p, e);
  }

  /** A listed author's message on a watched channel matches whatever it says. */
  lemma ListedAuthorMatches(table: Table, m: Message)
    requires m.channelId in table && m.authorId in table[m.channelId].authors
    ensures MessageMatches(table, m)
  {
  }

  /**
   * A rule compiled from an entry without roles, keywords or authors
   * matches no message at all.
   */
  lemma EmptyRuleMatchesNothing(table: Table, e: RawEntry, m: Message)
    requires e.roles.None? || e.roles == Some([])
    requires e.keywords.None? || e.keywords == Some([])
    requires e.authors.None? || e.authors == Some([])
    requires m.channelId in table ==> table[m.channelId] == CompileEntry(e)
    ensures !MessageMatches(table, m)
  {
    if m.channelId in table {
      NoAlternativesMatchNothing(e, m.content);
    }
  }

  /**
   * A message on a watched channel whose only hit is one embed field value
   * containing a keyword of the rule still matches.
   */
  lemma FieldValueKeywordMatches(table: Table, m: Message, i: nat, j: nat)
    requires m.channelId in table
    requires i < |m.embeds| && j < |m.embeds[i].fields|
    requires Truthy(m.embeds[i].fields[j].value)
    requires Test(table[m.channelId].pattern, Shown(m.embeds[i].fields[j].value))
    ensures MessageMatches(table, m)
  {
    var p := table[m.channelId].pattern;
    assert SomeFieldMatches(p, m.embeds[i].fields);
    EmbedMatchesIff(p, m.embeds[i]);
  }
}
