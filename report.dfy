/** The decisions behind the `/scansafatiche` report: whether the bot was
    tagged, the ranking of users by message count, and the report text. */
module Report {
  import opened PyText
  import opened Users

  // ---------------------------------------------------------------------------
  // Was the bot mentioned?
  // ---------------------------------------------------------------------------

  /** A Telegram message entity: its type and the span of text it covers. */
  datatype Entity = Entity(kind: string, offset: int, length: int)

  /** The entity is a "mention" whose text is `@` followed by the bot's username. */
  predicate IsBotMention(text: string, e: Entity, botUsername: string) {
    e.kind == "mention" && Slice(text, e.offset, e.offset + e.length) == "@" + botUsername
  }

  /** `any(...)` over the message entities. */
  function Mentioned(text: string, entities: seq<Entity>, botUsername: string): (b: bool)
    ensures b <==> exists i :: 0 <= i < |entities| && IsBotMention(text, entities[i], botUsername)
    decreases |entities|
  {
    if entities == [] then false
    else IsBotMention(text, entities[0], botUsername) || Mentioned(text, entities[1..], botUsername)
  }

  /** The mention test with the entity's offset and length read as UTF-16
      code units, which is how Telegram counts them. */
  predicate IsBotMentionUtf16(text: string, e: Entity, botUsername: string) {
    e.kind == "mention" && Utf16Slice(text, e.offset, e.length) == "@" + botUsername
  }

  function MentionedUtf16(text: string, entities: seq<Entity>, botUsername: string): (b: bool)
    ensures b <==> exists i :: 0 <= i < |entities| && IsBotMentionUtf16(text, entities[i], botUsername)
    decreases |entities|
  {
    if entities == [] then false
    else IsBotMentionUtf16(text, entities[0], botUsername) || MentionedUtf16(text, entities[1..], botUsername)
  }

  /** A message holding `@` plus the bot's username, marked by a mention
      entity over exactly those code units, mentions the bot, whatever
      characters come before it. */
  lemma MentionedUtf16Found(before: string, mention: string, after: string, entities: seq<Entity>, botUsername: string)
    requires mention == "@" + botUsername
    requires Entity("mention", Utf16Length(before), Utf16Length(mention)) in entities
    ensures MentionedUtf16(before + mention + after, entities, botUsername)
  {
    Utf16SliceSpan(before, mention, after);
    var i :| 0 <= i < |entities| && entities[i] == Entity("mention", Utf16Length(before), Utf16Length(mention));
    assert IsBotMentionUtf16(before + mention + after, entities[i], botUsername);
  }

  /** On text inside the Basic Multilingual Plane, with offsets and lengths
      as Telegram sends them, both mention tests agree. */
  lemma {:induction false} MentionedUtf16Bmp(text: string, entities: seq<Entity>, botUsername: string)
    requires InBmp(text)
    requires forall i :: 0 <= i < |entities| ==> entities[i].offset >= 0 && entities[i].length >= 0
    ensures MentionedUtf16(text, entities, botUsername) == Mentioned(text, entities, botUsername)
    decreases |entities|
  {
    if entities != [] {
      var e := entities[0];
      Utf16SliceBmp(text, e.offset, e.length);
      assert IsBotMentionUtf16(text, e, botUsername) == IsBotMention(text, e, botUsername);
      MentionedUtf16Bmp(text, entities[1..], botUsername);
    }
  }

  /** The mention test as written misses a mention that follows an emoji:
      Telegram puts `@bot` at UTF-16 offset 18, which is character 17. */
  lemma MentionMissedAfterEmoji()
    ensures !Mentioned("/scansafatiche " + "\U{1F600} " + "@bot", [Entity("mention", 18, 4)], "bot")
  {
    assert Slice("/scansafatiche " + "\U{1F600} " + "@bot", 18, 22) == "bot";
  }

  lemma CommandUnits()
    ensures Utf16Length("/scansafatiche ") == 15
  {
    Utf16LengthBmp("/scansafatiche ");
  }

  /** The emoji takes two UTF-16 units, the space after it one. */
  lemma EmojiUnits()
    ensures Utf16Length("\U{1F600} ") == 3
  {
    var s := "\U{1F600} ";
    assert s[1..] == " ";
    Utf16LengthBmp(" ");
  }

  lemma MentionUnits()
    ensures Utf16Length("@bot") == 4
  {
    Utf16LengthBmp("@bot");
  }

  lemma EmojiOffsets()
    ensures Utf16Length("/scansafatiche " + "\U{1F600} ") == 18
  {
    CommandUnits();
    EmojiUnits();
    Utf16LengthConcat("/scansafatiche ", "\U{1F600} ");
  }

  /** The UTF-16 mention test finds the same mention. */
  lemma MentionFoundAfterEmoji()
    ensures MentionedUtf16("/scansafatiche " + "\U{1F600} " + "@bot", [Entity("mention", 18, 4)], "bot")
  {
    var before, mention: string := "/scansafatiche " + "\U{1F600} ", "@bot";
    EmojiOffsets();
    MentionUnits();
    MentionedUtf16Found(before, mention, [], [Entity("mention", 18, 4)], "bot");
    assert before + mention + [] == before + mention;
  }

  // ---------------------------------------------------------------------------
  // Ranking: sorted(items, key=lambda x: -x[1])
  // ---------------------------------------------------------------------------

  /** One `(user_id, count)` item of the counter dict. */
  datatype Entry = Entry(user: UserId, count: nat)

  function UserIds(s: seq<Entry>): (ids: seq<UserId>)
    ensures |ids| == |s| && forall i :: 0 <= i < |s| ==> ids[i] == s[i].user
  {
    seq(|s|, i requires 0 <= i < |s| => s[i].user)
  }

  /** The dict's items: each key of `order` paired with its count. */
  function EntriesOf(order: seq<UserId>, counts: map<UserId, nat>): seq<Entry>
    requires forall i :: 0 <= i < |order| ==> order[i] in counts
  {
    seq(|order|, i requires 0 <= i < |order| => Entry(order[i], counts[order[i]]))
  }

  predicate NonIncreasing(s: seq<Entry>) {
    forall i, j :: 0 <= i < j < |s| ==> s[i].count >= s[j].count
  }

  /** Places `x` ahead of every entry whose count is not larger than its own. */
  function InsertByCount(x: Entry, r: seq<Entry>): (q: seq<Entry>)
    ensures multiset(q) == multiset(r) + multiset{x}
    ensures forall e :: e in q <==> e == x || e in r
    ensures q != [] && (q[0] == x || (r != [] && q[0] == r[0]))
    decreases |r|
  {
    if r == [] || r[0].count <= x.count then [x] + r
    else
      assert r == [r[0]] + r[1..];
      [r[0]] + InsertByCount(x, r[1..])
  }

  lemma {:induction false} InsertKeepsOrder(x: Entry, r: seq<Entry>)
    requires NonIncreasing(r)
    ensures NonIncreasing(InsertByCount(x, r))
    decreases |r|
  {
    if r != [] && r[0].count > x.count {
      InsertKeepsOrder(x, r[1..]);
      var rest := InsertByCount(x, r[1..]);
      var q := [r[0]] + rest;
      forall j | 0 < j < |q|
        ensures q[j].count <= r[0].count
      {
        assert q[j] == rest[j - 1] && q[j] in rest;
      }
      assert forall i, j :: 0 < i < j < |q| ==> q[i] == rest[i - 1] && q[j] == rest[j - 1];
    }
  }

  /** Python's stable sort by descending count. */
  function Ranked(s: seq<Entry>): (r: seq<Entry>)
    ensures multiset(r) == multiset(s)
    ensures NonIncreasing(r)
    decreases |s|
  {
    if s == [] then []
    else
      assert s == [s[0]] + s[1..];
      InsertKeepsOrder(s[0], Ranked(s[1..]));
      InsertByCount(s[0], Ranked(s[1..]))
  }

  lemma RankedLength(s: seq<Entry>)
    ensures |Ranked(s)| == |s|
  {
    assert |Ranked(s)| == |multiset(Ranked(s))| == |multiset(s)| == |s|;
  }

  /** The entries with count `c`, in their order. */
  function WithCount(s: seq<Entry>, c: nat): seq<Entry>
    decreases |s|
  {
    if s == [] then [] else (if s[0].count == c then [s[0]] else []) + WithCount(s[1..], c)
  }

  lemma WithCountCons(e: Entry, s: seq<Entry>, c: nat)
    ensures WithCount([e] + s, c) == (if e.count == c then [e] else []) + WithCount(s, c)
  {
    assert ([e] + s)[0] == e && ([e] + s)[1..] == s;
  }

  lemma {:induction false} InsertWithCount(x: Entry, r: seq<Entry>, c: nat)
    requires NonIncreasing(r)
    ensures WithCount(InsertByCount(x, r), c) == (if x.count == c then [x] else []) + WithCount(r, c)
    decreases |r|
  {
    if r == [] || r[0].count <= x.count {
      WithCountCons(x, r, c);
    } else {
      var head, tail := r[0], r[1..];
      var hs: seq<Entry> := if head.count == c then [head] else [];
      var xs: seq<Entry> := if x.count == c then [x] else [];
      assert r == [head] + tail;
      assert NonIncreasing(tail);
      InsertWithCount(x, tail, c);
      WithCountCons(head, InsertByCount(x, tail), c);
      WithCountCons(head, tail, c);
      // x sorts after head, so they cannot share the count c
      assert hs == [] || xs == [];
      assert hs + (xs + WithCount(tail, c)) == xs + (hs + WithCount(tail, c));
    }
  }

  /** Stability: the entries sharing a count keep their original order. */
  lemma {:induction false} RankedStable(s: seq<Entry>, c: nat)
    ensures WithCount(Ranked(s), c) == WithCount(s, c)
    decreases |s|
  {
    if s != [] {
      RankedStable(s[1..], c);
      InsertWithCount(s[0], Ranked(s[1..]), c);
    }
  }

  lemma {:induction false} InsertKeepsDistinct(x: Entry, r: seq<Entry>)
    requires Distinct(UserIds(r))
    requires forall e :: e in r ==> e.user != x.user
    ensures Distinct(UserIds(InsertByCount(x, r)))
    decreases |r|
  {
    if r != [] && r[0].count > x.count {
      var rest := InsertByCount(x, r[1..]);
      assert Distinct(UserIds(r[1..]));
      InsertKeepsDistinct(x, r[1..]);
      var q := [r[0]] + rest;
      forall j | 0 < j < |q|
        ensures q[j].user != r[0].user
      {
        assert q[j] == rest[j - 1];
        assert q[j] in rest;
        if q[j] != x {
          assert q[j] in r[1..];
          var k :| 0 <= k < |r[1..]| && r[1..][k] == q[j];
          assert r[k + 1].user != r[0].user;
        }
      }
      assert forall i, j :: 0 < i < j < |q| ==> q[i] == rest[i - 1] && q[j] == rest[j - 1];
    } else {
      var q := [x] + r;
      assert forall j :: 0 < j < |q| ==> q[j] == r[j - 1] && q[j] in r;
    }
  }

  /** Ranking lists every user of the dict exactly once. */
  lemma {:induction false} RankedDistinct(s: seq<Entry>)
    requires Distinct(UserIds(s))
    ensures Distinct(UserIds(Ranked(s)))
    decreases |s|
  {
    if s != [] {
      assert Distinct(UserIds(s[1..]));
      RankedDistinct(s[1..]);
      forall e | e in Ranked(s[1..])
        ensures e.user != s[0].user
      {
        assert e in multiset(Ranked(s[1..]));
        assert e in s[1..];
      }
      InsertKeepsDistinct(s[0], Ranked(s[1..]));
    }
  }

  // ---------------------------------------------------------------------------
  // The report text
  // ---------------------------------------------------------------------------

  /** The reply when no message has been counted yet. */
  const NothingToCount: string := "Nessun messaggio da conteggiare!"

  /** The first line of a report (Markdown). */
  const Header: string := "\U{1F4CA} *Conteggio messaggi dei scansafatiche:*\n\n"

  /** The name shown for `id`: the member's name chain when the lookup
      succeeds, `str(id)` when it raises (a missing key here). */
  function MemberName(members: map<UserId, User>, id: UserId): (r: string)
    ensures r != ""
    ensures id !in members ==> ParseInt(r) == Some(id)
  {
    if id in members then DisplayName(members[id].fullName, members[id].username, id)
    else IntToStringRoundTrip(id); IntToString(id)
  }

  function Line(name: string, count: nat): string {
    "\U{2022} " + name + ": " + IntToString(count) + " messaggi\n"
  }

  /** The report for `ranked`: the header, then one line per entry appended
      in ranking order. */
  function ReportText(ranked: seq<Entry>, members: map<UserId, User>): string
    decreases |ranked|
  {
    if ranked == [] then Header
    else
      var last := ranked[|ranked| - 1];
      ReportText(ranked[..|ranked| - 1], members) + Line(MemberName(members, last.user), last.count)
  }

  /** Every report opens with the header, whatever lines follow it. */
  lemma {:induction false} ReportStartsWithHeader(ranked: seq<Entry>, members: map<UserId, User>)
    ensures |ReportText(ranked, members)| >= |Header|
    ensures ReportText(ranked, members)[..|Header|] == Header
    decreases |ranked|
  {
    if ranked != [] {
      var init := ranked[..|ranked| - 1];
      ReportStartsWithHeader(init, members);
      var r := ReportText(init, members);
      var line := Line(MemberName(members, ranked[|ranked| - 1].user), ranked[|ranked| - 1].count);
      assert (r + line)[..|Header|] == r[..|Header|];
    }
  }

  /** A report can never be mistaken for the "nothing to count" reply. */
  lemma ReportIsNotNothingToCount(ranked: seq<Entry>, members: map<UserId, User>)
    ensures ReportText(ranked, members) != NothingToCount
  {
    ReportStartsWithHeader(ranked, members);
    assert ReportText(ranked, members)[0] == ReportText(ranked, members)[..|Header|][0] == Header[0];
  }
}
