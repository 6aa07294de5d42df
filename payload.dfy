/**
 * The webhook request built for a matching message (`sendWebhook` and
 * `buildMessageParams`, index.js:74-121): a header line that mentions the
 * author and links the message, the body with role references rewritten,
 * the embeds rewritten slot by slot and one image embed per attachment,
 * posted to the channel's own webhook or to the default one.
 */
module Payload {
  import opened Wrappers
  import opened Strings
  import opened Config
  import opened Messages
  import opened Matching
  import opened Roles

  const LINK_PREFIX: string := "https://discord.com/channels/"

  /** Link to the message: guild, channel and message id under the channels path. */
  function Permalink(m: Message): string
  {
    LINK_PREFIX + m.guildId + "/" + m.channelId + "/" + m.id
  }

  /** First line of the forwarded content; it keeps a space before the line break. */
  function Header(m: Message): string
  {
    "<@" + m.authorId + "> in " + Permalink(m) + " \n"
  }

  /** An embed of the outgoing message: a rewritten copy of an original one, or an attachment image. */
  datatype OutEmbed = Rich(embed: Embed) | Image(url: string)

  datatype Payload = Payload(content: string, embeds: seq<OutEmbed>)

  /** A POST of `body` to `endpoint`. */
  datatype Request = Request(endpoint: string, body: Payload)

  /** A slot is rewritten only when it holds a string; any other value passes through. */
  function RewrittenValue(v: Value, roles: seq<Role>, bold: bool): Value
  {
    match v
    case Text(s) => Text(RolesReplaced(s, roles, bold))
    case _ => v
  }

  function RewrittenField(f: Field, roles: seq<Role>): Field
  {
    Field(RewrittenValue(f.name, roles, true), RewrittenValue(f.value, roles, true))
  }

  /**
   * The embed after rewriting (index.js:104-117): title, description and
   * every field name and value with bold labels, author name and footer
   * text with plain ones.
   */
  function RewrittenEmbed(e: Embed, roles: seq<Role>): Embed
  {
    Embed(
      RewrittenValue(e.title, roles, true),
      RewrittenValue(e.description, roles, true),
      RewrittenValue(e.authorName, roles, false),
      RewrittenValue(e.footerText, roles, false),
      seq(|e.fields|, k requires 0 <= k < |e.fields| => RewrittenField(e.fields[k], roles)))
  }

  /**
   * The request body for message `m` (index.js:94-121): the header and the
   * rewritten body, then the rewritten embeds in order followed by one image
   * per attachment in order.
   */
  function MessageParams(table: Table, m: Message): (p: Payload)
    ensures p.content == Header(m) + RolesReplaced(m.content, RolesFor(table, m.channelId), true)
    ensures |p.embeds| == |m.embeds| + |m.attachments|
    ensures forall i | 0 <= i < |m.embeds| ::
              p.embeds[i] == Rich(RewrittenEmbed(m.embeds[i], RolesFor(table, m.channelId)))
    ensures forall j | 0 <= j < |m.attachments| :: p.embeds[|m.embeds| + j] == Image(m.attachments[j].url)
  {
    var roles := RolesFor(table, m.channelId);
    Payload(
      Header(m) + RolesReplaced(m.content, roles, true),
      seq(|m.embeds|, i requires 0 <= i < |m.embeds| => Rich(RewrittenEmbed(m.embeds[i], roles)))
        + seq(|m.attachments|, j requires 0 <= j < |m.attachments| => Image(m.attachments[j].url)))
  }

  /**
   * Where the request goes (index.js:76): the channel's webhook when it is
   * configured and not empty, otherwise the default one.
   */
  function Endpoint(table: Table, channelId: string, default: string): (url: string)
    ensures url == default || (channelId in table && table[channelId].webhookUrl == Some(url))
    ensures url == [] ==> default == []
  {
    if channelId in table && table[channelId].webhookUrl.Some? && table[channelId].webhookUrl.value != []
    then table[channelId].webhookUrl.value
    else default
  }

  // --------------------------------------------------------------- methods

  /** One slot of an embed, rewritten in place when it holds a string. */
  method RewriteSlot(v: Value, table: Table, channelId: string, bold: bool) returns (r: Value)
    ensures r == RewrittenValue(v, RolesFor(table, channelId), bold)
  {
    r := v;
    if v.Text? {
      var s := ReplaceRoles(v.s, table, channelId, bold);
      r := Text(s);
    }
  }

  /** The rewriting of one embed, field by field (index.js:103-118). */
  method RewriteEmbed(e: Embed, table: Table, channelId: string) returns (r: Embed)
    ensures r == RewrittenEmbed(e, RolesFor(table, channelId))
  {
    ghost var roles := RolesFor(table, channelId);
    var title := RewriteSlot(e.title, table, channelId, true);
    var description := RewriteSlot(e.description, table, channelId, true);
    var authorName := RewriteSlot(e.authorName, table, channelId, false);
    var footerText := RewriteSlot(e.footerText, table, channelId, false);
    var fields: seq<Field> := [];
    var k := 0;
    while k < |e.fields|
      invariant 0 <= k <= |e.fields|
      invariant |fields| == k
      invariant forall t | 0 <= t < k :: fields[t] == RewrittenField(e.fields[t], roles)
    {
      var name := RewriteSlot(e.fields[k].name, table, channelId, true);
      var value := RewriteSlot(e.fields[k].value, table, channelId, true);
      fields := fields + [Field(name, value)];
      k := k + 1;
    }
    r := Embed(title, description, authorName, footerText, fields);
  }

  /** `buildMessageParams`: images collected first, then the embeds mapped, then both concatenated. */
  method BuildMessageParams(table: Table, m: Message) returns (p: Payload)
    ensures p == MessageParams(table, m)
  {
    var images: seq<OutEmbed> := [];
    var j := 0;
    while j < |m.attachments|
      invariant 0 <= j <= |m.attachments|
      invariant |images| == j
      invariant forall t | 0 <= t < j :: images[t] == Image(m.attachments[t].url)
    {
      images := images + [Image(m.attachments[j].url)];
      j := j + 1;
    }
    var content := ReplaceRoles(m.content, table, m.channelId, true);
    var embeds: seq<OutEmbed> := [];
    var i := 0;
    while i < |m.embeds|
      invariant 0 <= i <= |m.embeds|
      invariant |embeds| == i
      invariant forall t | 0 <= t < i :: embeds[t] == Rich(RewrittenEmbed(m.embeds[t], RolesFor(table, m.channelId)))
    {
      var e := RewriteEmbed(m.embeds[i], table, m.channelId);
      embeds := embeds + [Rich(e)];
      i := i + 1;
    }
    p := Payload(Header(m) + content, embeds + images);
  }

  /**
   * The `messageCreate` handler (index.js:34-38, 74-79): a request is made
   * exactly when the message matches, to the channel's endpoint, carrying
   * the built parameters.
   */
  method HandleMessage(table: Table, default: string, m: Message) returns (req: Option<Request>)
    ensures req.Some? <==> MessageMatches(table, m)
    ensures req.Some? ==> req.value == Request(Endpoint(table, m.channelId, default), MessageParams(table, m))
  {
    if !MessageMatches(table, m) {
      return None;
    }
    var params := BuildMessageParams(table, m);
    req := Some(Request(Endpoint(table, m.channelId, default), params));
  }

  // ---------------------------------------------------------------- lemmas

  /** In `a + "/" + x` with no slash in `a`, the first slash is at index `|a|`. */
  lemma FirstSlash(a: string, x: string)
    requires '/' !in a
    ensures (a + "/" + x)[|a|] == '/'
    ensures forall k | 0 <= k < |a| :: (a + "/" + x)[k] != '/'
  {
    forall k | 0 <= k < |a| ensures (a + "/" + x)[k] != '/' {
      assert (a + "/" + x)[k] == a[k];
    }
  }

  lemma SlashSplit(a: string, x: string, b: string, y: string)
    requires '/' !in a && '/' !in b
    requires a + "/" + x == b + "/" + y
    ensures a == b && x == y
  {
    var s := a + "/" + x;
    FirstSlash(a, x);
    FirstSlash(b, y);
    assert |a| == |b|;
    assert a == s[..|a|] == b;
    assert x == s[|a| + 1..] == y;
  }

  /**
   * Links of messages whose ids contain no slash are distinct for distinct
   * messages: the link determines guild, channel and message id.
   */
  lemma PermalinkInjective(m1: Message, m2: Message)
    requires '/' !in m1.guildId && '/' !in m1.channelId
    requires '/' !in m2.guildId && '/' !in m2.channelId
    requires Permalink(m1) == Permalink(m2)
    ensures m1.guildId == m2.guildId && m1.channelId == m2.channelId && m1.id == m2.id
  {
    var p := |LINK_PREFIX|;
    var r1 := m1.guildId + "/" + (m1.channelId + "/" + m1.id);
    var r2 := m2.guildId + "/" + (m2.channelId + "/" + m2.id);
    assert Permalink(m1) == LINK_PREFIX + r1;
    assert Permalink(m2) == LINK_PREFIX + r2;
    assert r1 == Permalink(m1)[p..] == Permalink(m2)[p..] == r2;
    SlashSplit(m1.guildId, m1.channelId + "/" + m1.id, m2.guildId, m2.channelId + "/" + m2.id);
    SlashSplit(m1.channelId, m1.id, m2.channelId, m2.id);
  }

  /** Replacing in a non-empty text by a non-empty replacement leaves a non-empty text. */
  lemma {:induction false} ApplyRolesNonEmpty(s: string, roles: seq<Role>, bold: bool)
    requires s != []
    ensures ApplyRoles(s, roles, bold) != []
  {
    if roles != [] {
      var n := |roles| - 1;
      ApplyRolesNonEmpty(s, roles[..n], bold);
      var t := ApplyRoles(s, roles[..n], bold);
      assert ReplaceAll(t, RoleRef(roles[n].key), Label(roles[n].name, bold)) != [];
    }
  }

  /**
   * Rewriting keeps each slot's kind and its truthiness: a string stays a
   * string, empty exactly when it was empty; absent and other values are
   * unchanged.
   */
  lemma RewrittenValueKeepsKind(v: Value, roles: seq<Role>, bold: bool)
    ensures RewrittenValue(v, roles, bold).Text? <==> v.Text?
    ensures !v.Text? ==> RewrittenValue(v, roles, bold) == v
    ensures Truthy(RewrittenValue(v, roles, bold)) <==> Truthy(v)
  {
    if v.Text? && v.s != [] && HasRoleRef(v.s) {
      ApplyRolesNonEmpty(v.s, roles, bold);
    }
  }

  /**
   * For a channel without roles, the body is forwarded after the header as
   * it is, and every embed is forwarded unchanged.
   */
  lemma NoRolesForwardsVerbatim(table: Table, m: Message)
    requires m.channelId !in table || table[m.channelId].roles == []
    ensures MessageParams(table, m).content == Header(m) + m.content
    ensures forall i | 0 <= i < |m.embeds| :: MessageParams(table, m).embeds[i] == Rich(m.embeds[i])
  {
    var p := MessageParams(table, m);
    forall i | 0 <= i < |m.embeds| ensures p.embeds[i] == Rich(m.embeds[i]) {
      var e := m.embeds[i];
      var r := RewrittenEmbed(e, []);
      forall k | 0 <= k < |e.fields| ensures r.fields[k] == e.fields[k] { }
    }
  }

  /**
   * The endpoint is the webhook of the last entry listing the channel when
   * that webhook is set and not empty, and the default one otherwise.
   */
  lemma EndpointOfEntry(entries: seq<RawEntry>, k: nat, c: string, default: string)
    requires k < |entries|
    requires c in WatchIds(entries[k].watchChannelIds)
    requires forall j | k < j < |entries| :: c !in WatchIds(entries[j].watchChannelIds)
    ensures Endpoint(CompileTable(entries), c, default)
         == if entries[k].webhookUrl.Some? && entries[k].webhookUrl.value != [] then entries[k].webhookUrl.value else default
  {
    LastEntryWins(entries, k, c);
  }

}
