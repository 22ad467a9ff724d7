/** The bot's two handlers over its process-wide state: `count_messages`,
    which counts every group message and fires each threshold once per user,
    and `scansafatiche`, which answers a mention with the ranked counts. */
module Bot {
  import opened PyText
  import opened Users
  import opened Trigger
  import opened Report

  /** A user's entry in `user_thresholds_triggered`, as the defaultdict
      answers a lookup: the empty set when there is none. */
  function FiredIn(fired: map<UserId, set<int>>, u: UserId): set<int> {
    if u in fired then fired[u] else {}
  }

  /** One reached threshold `t` recorded for `u` on top of the thresholds
      `upto` recorded so far in the loop: whether `t` was added or already
      there, the entry ends as the old one with `upto` and `t` added. */
  lemma RecordStep(m0: map<UserId, set<int>>, m1: map<UserId, set<int>>, m2: map<UserId, set<int>>,
                   u: UserId, upto: set<int>, t: int, added: bool)
    requires m1 == if upto == {} then m0 else m0[u := FiredIn(m0, u) + upto]
    requires t !in upto
    requires added ==> t !in FiredIn(m1, u) && m2 == m1[u := FiredIn(m1, u)][u := FiredIn(m1, u) + {t}]
    requires !added ==> t in FiredIn(m1, u) && m2 == m1[u := FiredIn(m1, u)]
    ensures FiredIn(m1, u) == FiredIn(m0, u) + upto
    ensures t in FiredIn(m1, u) <==> t in FiredIn(m0, u)
    ensures m2 == m0[u := FiredIn(m0, u) + (upto + {t})]
  {
    var f0 := FiredIn(m0, u);
    var s := FiredIn(m1, u);
    assert s == f0 + upto;
    assert s + {t} == f0 + (upto + {t});
    if !added {
      assert s + {t} == s;
    }
  }

  /** `texts[k]` is the template of threshold `newly[k]` rendered with `name`. */
  predicate Rendered(newly: seq<int>, texts: seq<string>, messages: map<int, seq<Piece>>, name: string) {
    && |texts| == |newly|
    && forall k :: 0 <= k < |newly| ==> newly[k] in messages && texts[k] == Format(messages[newly[k]], name)
  }

  lemma RenderedSnoc(newly: seq<int>, texts: seq<string>, messages: map<int, seq<Piece>>, name: string, t: int)
    requires Rendered(newly, texts, messages, name)
    requires t in messages
    ensures Rendered(newly + [t], texts + [Format(messages[t], name)], messages, name)
  {
  }

  /** The invariant of the two dicts. Every counted user has sent at least
      one message, and a user's fired set is exactly the thresholds their
      count has reached; the entry only exists once the first threshold is
      reached. `order` lists the counted users once each. */
  ghost predicate Consistent(counts: map<UserId, nat>, order: seq<UserId>, fired: map<UserId, set<int>>) {
    && Distinct(order)
    && (forall i :: 0 <= i < |order| ==> order[i] in counts)
    && (forall u :: u in counts ==> u in order)
    && (forall u :: u in counts ==> counts[u] >= 1)
    && (forall u :: u in fired <==> u in counts && Reached(counts[u]) != {})
    && (forall u :: u in fired ==> fired[u] == Reached(counts[u]))
  }

  /** The count a message from `u` brings the sender to. */
  function NextCount(counts: map<UserId, nat>, u: UserId): nat {
    if u in counts then counts[u] + 1 else 1
  }

  /** Before a message from `u`, the user's fired set is what the previous
      count reached, and it is part of what the new count reaches. */
  lemma FiredBeforeCount(counts: map<UserId, nat>, order: seq<UserId>, fired: map<UserId, set<int>>, u: UserId)
    requires Consistent(counts, order, fired)
    ensures FiredIn(fired, u) == Reached(NextCount(counts, u) - 1)
    ensures FiredIn(fired, u) + Reached(NextCount(counts, u)) == Reached(NextCount(counts, u))
  {
    if u !in counts {
      assert Reached(0) == {};
    }
  }

  /** Counting one more message from `u` and recording the thresholds its
      new count reaches keeps the dicts consistent. */
  lemma CountStep(counts: map<UserId, nat>, order: seq<UserId>, fired: map<UserId, set<int>>, u: UserId,
                  counts': map<UserId, nat>, order': seq<UserId>, fired': map<UserId, set<int>>)
    requires Consistent(counts, order, fired)
    requires counts' == counts[u := NextCount(counts, u)]
    requires order' == if u in counts then order else order + [u]
    requires fired' == if Reached(NextCount(counts, u)) == {} then fired
                       else fired[u := Reached(NextCount(counts, u))]
    ensures Consistent(counts', order', fired')
  {
    if u !in counts {
      forall i, j | 0 <= i < j < |order'|
        ensures order'[i] != order'[j]
      {
        if j == |order| {
          assert order'[i] == order[i] && order[i] in order;
        }
      }
    }
  }

  /** A message never takes a threshold back: every fired set only grows. */
  lemma CountKeepsFired(counts: map<UserId, nat>, order: seq<UserId>, fired: map<UserId, set<int>>, u: UserId)
    requires Consistent(counts, order, fired)
    ensures var c := NextCount(counts, u);
            var fired' := if Reached(c) == {} then fired else fired[u := Reached(c)];
            forall v :: v in fired ==> v in fired' && fired[v] <= fired'[v]
  {
    FiredBeforeCount(counts, order, fired, u);
  }

  /** The report ranks every counted user exactly once, with their count,
      from the most messages to the fewest. */
  lemma RankingCoversStore(counts: map<UserId, nat>, order: seq<UserId>, fired: map<UserId, set<int>>)
    requires Consistent(counts, order, fired)
    ensures var r := Ranked(EntriesOf(order, counts));
            && Distinct(UserIds(r))
            && NonIncreasing(r)
            && |r| == |counts|
            && forall e :: e in r <==> e.user in counts && e.count == counts[e.user]
  {
    var s := EntriesOf(order, counts);
    RankedDistinct(s);
    RankedMembers(counts, order, fired);
    RankedLength(s);
    StoreSize(counts, order, fired);
  }

  lemma StoreSize(counts: map<UserId, nat>, order: seq<UserId>, fired: map<UserId, set<int>>)
    requires Consistent(counts, order, fired)
    ensures |EntriesOf(order, counts)| == |counts|
  {
    DistinctCardinality(order);
    forall x
      ensures x in counts.Keys <==> x in ToSet(order)
    {
    }
    assert counts.Keys == ToSet(order);
  }

  lemma RankedMembers(counts: map<UserId, nat>, order: seq<UserId>, fired: map<UserId, set<int>>)
    requires Consistent(counts, order, fired)
    ensures forall e :: e in Ranked(EntriesOf(order, counts)) <==> e.user in counts && e.count == counts[e.user]
  {
    var s := EntriesOf(order, counts);
    var r := Ranked(s);
    forall e
      ensures e in r <==> e.user in counts && e.count == counts[e.user]
    {
      assert e in r <==> e in multiset(r);
      assert e in s <==> e in multiset(s);
      if e.user in counts {
        var i :| 0 <= i < |order| && order[i] == e.user;
        assert s[i].user == e.user;
      }
    }
  }

  /** A duplicate-free sequence has as many elements as its set. */
  lemma {:induction false} DistinctCardinality(order: seq<UserId>)
    requires Distinct(order)
    ensures |ToSet(order)| == |order|
    decreases |order|
  {
    if order != [] {
      var u := order[|order| - 1];
      var init := order[..|order| - 1];
      assert order == init + [u];
      assert Distinct(init);
      forall k | 0 <= k < |init|
        ensures init[k] != u
      {
        assert init[k] == order[k];
      }
      DistinctCardinality(init);
      assert ToSet(order) == ToSet(init) + {u};
    }
  }

  /** Only group and supergroup chats are counted and answered. */
  predicate IsGroup(chatType: string) {
    chatType == "group" || chatType == "supergroup"
  }

  /** `user_message_counts` and `user_thresholds_triggered`. The first is a
      dict whose keys keep insertion order, which the report's stable sort
      exposes: `counts` holds its values and `order` its keys in that order. */
  class CounterStore {
    var counts: map<UserId, nat>
    var order: seq<UserId>
    var fired: map<UserId, set<int>>

    ghost predicate Valid()
      reads this
    {
      Consistent(counts, order, fired)
    }

    /** The state at start-up: both dicts empty. */
    constructor ()
      ensures Valid()
      ensures counts == map[] && order == [] && fired == map[]
    {
      counts, order, fired := map[], [], map[];
    }

    /** `count_messages`: counts a message from `sender` in a chat of type
        `chatType` and returns the thresholds that fired, with the texts sent. */
    method CountMessages(chatType: string, sender: User) returns (newly: seq<int>, texts: seq<string>)
      requires Valid()
      modifies this
      ensures Valid()
      ensures !IsGroup(chatType) ==>
        && counts == old(counts) && order == old(order) && fired == old(fired)
        && newly == [] && texts == []
      ensures IsGroup(chatType) ==>
        var u := sender.id;
        var c := NextCount(old(counts), u);
        && counts == old(counts)[u := c]
        && order == (if u in old(counts) then old(order) else old(order) + [u])
        && fired == (if Reached(c) == {} then old(fired) else old(fired)[u := Reached(c)])
        && newly == NewlyFired(Thresholds, c, FiredIn(old(fired), u))
        && newly == (if c in Thresholds then [c] else [])
        && |texts| == |newly|
        && forall k :: 0 <= k < |newly| ==>
             texts[k] == Notification(newly[k], DisplayName(sender.fullName, sender.username, u))
    {
      newly, texts := [], [];
      if !IsGroup(chatType) {
        return;
      }
      var u := sender.id;
      var name := DisplayName(sender.fullName, sender.username, u);

      // user_message_counts[user_id] += 1, creating the entry at 0 first
      if u !in counts {
        counts := counts[u := 0];
        order := order + [u];
      }
      counts := counts[u := counts[u] + 1];
      var count := counts[u];
      assert count == NextCount(old(counts), u);
      assert counts == old(counts)[u := count];

      FiredBeforeCount(old(counts), old(order), old(fired), u);
      TableWellFormed();
      newly, texts := FireThresholds(Thresholds, Messages, u, count, name);
      StepFiresAtMostOne(Thresholds, count);
      assert fired == if Reached(count) == {} then old(fired) else old(fired)[u := Reached(count)];
      CountStep(old(counts), old(order), old(fired), u, counts, order, fired);
    }

    /** The `for` loop of `count_messages`: walks the threshold table in
        declaration order and fires every threshold the count has reached
        that is not yet in the user's fired set, recording it there. */
    method FireThresholds(table: seq<int>, messages: map<int, seq<Piece>>, u: UserId, count: int, name: string)
      returns (newly: seq<int>, texts: seq<string>)
      requires Ascending(table)
      requires forall i :: 0 <= i < |table| ==> table[i] in messages
      modifies this`fired
      ensures newly == NewlyFired(table, count, FiredIn(old(fired), u))
      ensures |texts| == |newly|
      ensures forall k :: 0 <= k < |newly| ==> newly[k] in messages && texts[k] == Format(messages[newly[k]], name)
      ensures fired == if ReachedIn(table, count) == {} then old(fired)
                       else old(fired)[u := FiredIn(old(fired), u) + ReachedIn(table, count)]
    {
      ghost var m0 := fired;
      ghost var before := FiredIn(m0, u);
      ghost var upto: set<int> := {};
      newly, texts := [], [];
      var i := 0;
      while i < |table|
        invariant 0 <= i <= |table|
        invariant upto == ReachedIn(table[..i], count)
        invariant newly == NewlyFired(table[..i], count, before)
        invariant Rendered(newly, texts, messages, name)
        invariant fired == if upto == {} then m0 else m0[u := before + upto]
      {
        var t := table[i];
        ghost var m1 := fired;
        PrefixStep(table, i, count, before);
        if count >= t {
          // the lookup creates an empty entry for a user seen for the first time
          var s := FiredIn(fired, u);
          fired := fired[u := s];
          if t !in s {
            fired := fired[u := s + {t}];
            RenderedSnoc(newly, texts, messages, name, t);
            newly := newly + [t];
            texts := texts + [Format(messages[t], name)];
          }
          RecordStep(m0, m1, fired, u, upto, t, t !in s);
          upto := upto + {t};
        }
        i := i + 1;
      }
      assert table[..i] == table;
    }

    /** `scansafatiche`: the reply to the report command, None when the bot
        stays silent. The bot's username and the chat members it can look up
        are parameters. */
    method Scansafatiche(chatType: string, text: string, entities: seq<Entity>,
                         botUsername: string, members: map<UserId, User>)
      returns (reply: Option<string>)
      requires Valid()
      ensures reply.None? <==> !IsGroup(chatType) || !MentionedUtf16(text, entities, botUsername)
      ensures reply == Some(NothingToCount)
          <==> IsGroup(chatType) && MentionedUtf16(text, entities, botUsername) && counts == map[]
      ensures reply.Some? && counts != map[] ==>
        reply.value == ReportText(Ranked(EntriesOf(order, counts)), members)
    {
      if !IsGroup(chatType) {
        return None;
      }
      if !MentionedUtf16(text, entities, botUsername) {
        return None;
      }
      if counts == map[] {
        return Some(NothingToCount);
      }
      var ranked := Ranked(EntriesOf(order, counts));
      var report := BuildReport(ranked, members);
      ReportIsNotNothingToCount(ranked, members);
      reply := Some(report);
    }
  }

  /** The report loop of `scansafatiche`: the header, then one line per
      ranked entry appended in ranking order. */
  method BuildReport(ranked: seq<Entry>, members: map<UserId, User>) returns (report: string)
    ensures report == ReportText(ranked, members)
  {
    report := Header;
    assert ranked[..0] == [];
    for i := 0 to |ranked|
      invariant report == ReportText(ranked[..i], members)
    {
      var e := ranked[i];
      assert ranked[..i + 1][..i] == ranked[..i] && ranked[..i + 1][i] == e;
      report := report + Line(MemberName(members, e.user), e.count);
    }
    assert ranked[..|ranked|] == ranked;
  }
}
