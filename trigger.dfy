/** The threshold table of the bot and the once-only firing rule applied to a
    user's message count. */
module Trigger {
  import opened PyText

  /** The keys of the threshold dict, in declaration (and iteration) order. */
  const Thresholds: seq<int> := [20, 100, 200, 500]

  /** The message template of each threshold. */
  const Messages: map<int, seq<Piece>> := map[
    20 := [Lit("Diocan "), NameField, Lit(" la smetti di spammare")],
    100 := [Lit("Qualcuno qui non ha davvero un cazzo da fare eh")],
    200 := [Lit("Oh ma che cazzo \U{e8} "), NameField, Lit(", torna a lavorare")],
    500 := [NameField, Lit(" ha trasceso il significato di lavorare, ben fatto compagno")]
  ]

  predicate Ascending(s: seq<int>) {
    forall i, j :: 0 <= i < j < |s| ==> s[i] < s[j]
  }

  /** The table is a dict: every threshold has a template, and no other key does. */
  lemma TableWellFormed()
    ensures Ascending(Thresholds)
    ensures forall t :: t in Messages <==> t in Thresholds
  {
  }

  /** The text sent when threshold `t` fires for a user called `name`. */
  function Notification(t: int, name: string): string
    requires t in Messages
  {
    Format(Messages[t], name)
  }

  /** The four notifications as sent: the user's name is spliced into the
      20, 200 and 500 texts, and the 100 text is the same for everyone. */
  lemma NotificationTexts(name: string, other: string)
    ensures Notification(20, name) == "Diocan " + name + " la smetti di spammare"
    ensures Notification(100, name) == Notification(100, other)
         == "Qualcuno qui non ha davvero un cazzo da fare eh"
    ensures Notification(200, name) == "Oh ma che cazzo \U{e8} " + name + ", torna a lavorare"
    ensures Notification(500, name) == name + " ha trasceso il significato di lavorare, ben fatto compagno"
  {
    var t20, t200 := Messages[20], Messages[200];
    assert t20 == [t20[0]] + [NameField] + [t20[2]];
    FormatSplicesName([t20[0]], [t20[2]], name);
    assert Format([t20[0]], name) == "Diocan ";
    assert t200 == [t200[0]] + [NameField] + [t200[2]];
    FormatSplicesName([t200[0]], [t200[2]], name);
    assert Format([t200[0]], name) == "Oh ma che cazzo \U{e8} ";
    var t500 := Messages[500];
    assert t500 == [] + [NameField] + [t500[1]];
    FormatSplicesName([], [t500[1]], name);
    FormatWithoutField(Messages[100], name, other);
  }

  /** The thresholds among `order` that a count of `count` has reached. */
  function ReachedIn(order: seq<int>, count: int): set<int> {
    set t | t in order && t <= count
  }

  /** The thresholds a user with `count` messages has reached. */
  function Reached(count: int): set<int> {
    ReachedIn(Thresholds, count)
  }

  lemma ReachedInSnoc(order: seq<int>, t: int, count: int)
    ensures ReachedIn(order + [t], count) == ReachedIn(order, count) + (if t <= count then {t} else {})
  {
  }

  lemma NewlyFiredSnoc(order: seq<int>, t: int, count: int, fired: set<int>)
    ensures NewlyFired(order + [t], count, fired)
         == NewlyFired(order, count, fired) + (if t <= count && t !in fired then [t] else [])
  {
    assert (order + [t])[..|order|] == order;
  }

  /** Walking one more entry of `table`: the reached set and the fired
      sequence of the longer prefix. In an ascending table the new entry is
      not among those reached before it. */
  lemma PrefixStep(table: seq<int>, i: int, count: int, fired: set<int>)
    requires Ascending(table)
    requires 0 <= i < |table|
    ensures ReachedIn(table[..i + 1], count)
         == ReachedIn(table[..i], count) + (if table[i] <= count then {table[i]} else {})
    ensures NewlyFired(table[..i + 1], count, fired)
         == NewlyFired(table[..i], count, fired) + (if table[i] <= count && table[i] !in fired then [table[i]] else [])
    ensures table[i] !in ReachedIn(table[..i], count)
  {
    assert table[..i + 1] == table[..i] + [table[i]];
    ReachedInSnoc(table[..i], table[i], count);
    NewlyFiredSnoc(table[..i], table[i], count, fired);
    assert table[i] !in table[..i];
  }

  /** The thresholds of `order` that fire, in `order`'s order, for a user with
      `count` messages whose fired set is `fired`. */
  function NewlyFired(order: seq<int>, count: int, fired: set<int>): seq<int>
    decreases |order|
  {
    if order == [] then []
    else
      var t := order[|order| - 1];
      NewlyFired(order[..|order| - 1], count, fired) + (if t <= count && t !in fired then [t] else [])
  }

  /** A threshold fires exactly when it is in the table, the count has
      reached it, and it has not fired before. */
  lemma {:induction false} NewlyFiredMembers(order: seq<int>, count: int, fired: set<int>)
    ensures forall t :: t in NewlyFired(order, count, fired) <==> t in order && t <= count && t !in fired
    decreases |order|
  {
    if order != [] {
      var init := order[..|order| - 1];
      assert order == init + [order[|order| - 1]];
      NewlyFiredMembers(init, count, fired);
    }
  }

  /** The thresholds fire in table order, so in ascending order for an
      ascending table. */
  lemma {:induction false} NewlyFiredAscending(order: seq<int>, count: int, fired: set<int>)
    requires Ascending(order)
    ensures Ascending(NewlyFired(order, count, fired))
    decreases |order|
  {
    if order != [] {
      var init, t := order[..|order| - 1], order[|order| - 1];
      assert order == init + [t];
      NewlyFiredAscending(init, count, fired);
      NewlyFiredMembers(init, count, fired);
      var rest := NewlyFired(init, count, fired);
      forall i | 0 <= i < |rest|
        ensures rest[i] < t
      {
        assert rest[i] in rest;
      }
    }
  }

  /** An ascending sequence is determined by its elements. */
  lemma {:induction false} AscendingUnique(a: seq<int>, b: seq<int>)
    requires Ascending(a) && Ascending(b)
    requires forall x :: x in a <==> x in b
    ensures a == b
    decreases |a|
  {
    if a == [] {
      assert forall i | 0 <= i < |b| :: b[i] in a;
    } else {
      assert a[0] in a && a[0] in b;
      assert b != [] && b[0] in a;
      assert a[0] == b[0];
      forall x
        ensures x in a[1..] <==> x in b[1..]
      {
        assert x in a[1..] <==> x in a && x != a[0];
        assert x in b[1..] <==> x in b && x != b[0];
      }
      AscendingUnique(a[1..], b[1..]);
      assert a == [a[0]] + a[1..] && b == [b[0]] + b[1..];
    }
  }

  /** With the fired set equal to what the previous count had reached, the
      message that brings the count to `count` fires exactly `count` itself
      when it is a threshold, and nothing otherwise: at most one notification
      per message. */
  lemma StepFiresAtMostOne(table: seq<int>, count: int)
    requires Ascending(table)
    ensures NewlyFired(table, count, ReachedIn(table, count - 1))
         == if count in table then [count] else []
  {
    var before := ReachedIn(table, count - 1);
    var r := NewlyFired(table, count, before);
    var expected: seq<int> := if count in table then [count] else [];
    NewlyFiredAscending(table, count, before);
    NewlyFiredMembers(table, count, before);
    forall x
      ensures x in r <==> x in expected
    {
      assert x in before <==> x in table && x <= count - 1;
    }
    AscendingUnique(r, expected);
  }

  function ToSet(s: seq<int>): set<int> {
    set t | t in s
  }

  /** Recording what fires keeps the fired set equal to the thresholds reached. */
  lemma StepReachesCount(table: seq<int>, count: int)
    ensures ReachedIn(table, count - 1) + ToSet(NewlyFired(table, count, ReachedIn(table, count - 1)))
         == ReachedIn(table, count)
  {
    var r := NewlyFired(table, count, ReachedIn(table, count - 1));
    NewlyFiredMembers(table, count, ReachedIn(table, count - 1));
    forall x
      ensures x in ReachedIn(table, count - 1) + ToSet(r) <==> x in ReachedIn(table, count)
    {
      assert x in ToSet(r) <==> x in r;
    }
  }

  /** All notifications for one user over `n` messages under `table`,
      starting from count `c0` with the fired set that count had reached. */
  function FiredOver(table: seq<int>, c0: int, n: nat): seq<int>
    decreases n
  {
    if n == 0 then []
    else FiredOver(table, c0, n - 1) + NewlyFired(table, c0 + n, ReachedIn(table, c0 + n - 1))
  }

  /** One more message can only add its own count to what fires. */
  lemma NewlyFiredExtend(order: seq<int>, count: int, fired: set<int>)
    requires Ascending(order)
    ensures NewlyFired(order, count + 1, fired)
         == NewlyFired(order, count, fired)
            + (if count + 1 in order && count + 1 !in fired then [count + 1] else [])
  {
    NewlyFiredAscending(order, count, fired);
    NewlyFiredAscending(order, count + 1, fired);
    NewlyFiredMembers(order, count, fired);
    NewlyFiredMembers(order, count + 1, fired);
    var before := NewlyFired(order, count, fired);
    var extra: seq<int> := if count + 1 in order && count + 1 !in fired then [count + 1] else [];
    forall i | 0 <= i < |before|
      ensures before[i] <= count
    {
      assert before[i] in before;
    }
    AscendingUnique(NewlyFired(order, count + 1, fired), before + extra);
  }

  /** Over any run of messages, the notifications are exactly the thresholds
      crossed between the first and the last count, in ascending order: every
      threshold is notified at most once, and only when the count reaches it. */
  lemma {:induction false} RunFiresCrossedThresholds(table: seq<int>, c0: int, n: nat)
    requires Ascending(table)
    ensures FiredOver(table, c0, n) == NewlyFired(table, c0 + n, ReachedIn(table, c0))
    decreases n
  {
    if n == 0 {
      NewlyFiredMembers(table, c0, ReachedIn(table, c0));
      NewlyFiredAscending(table, c0, ReachedIn(table, c0));
      AscendingUnique(NewlyFired(table, c0, ReachedIn(table, c0)), []);
    } else {
      RunFiresCrossedThresholds(table, c0, n - 1);
      StepFiresAtMostOne(table, c0 + n);
      NewlyFiredExtend(table, c0 + n - 1, ReachedIn(table, c0));
      assert c0 + n !in ReachedIn(table, c0);
    }
  }

  /** The notifications of a run come in ascending order. */
  lemma RunFiresAscending(table: seq<int>, c0: int, n: nat)
    requires Ascending(table)
    ensures Ascending(FiredOver(table, c0, n))
  {
    RunFiresCrossedThresholds(table, c0, n);
    NewlyFiredAscending(table, c0 + n, ReachedIn(table, c0));
  }

  lemma NewUserFiresReached(n: nat)
    ensures forall x :: x in FiredOver(Thresholds, 0, n) <==> x in Thresholds && x <= n
    ensures Ascending(FiredOver(Thresholds, 0, n))
  {
    TableWellFormed();
    RunFiresCrossedThresholds(Thresholds, 0, n);
    RunFiresAscending(Thresholds, 0, n);
    NewlyFiredMembers(Thresholds, n, Reached(0));
    assert Reached(0) == {};
  }

  /** A new user is notified at 20, 100, 200 and 500 messages, and at no
      other count. */
  lemma {:induction false} NewUserNotifications(n: nat)
    ensures n < 20 ==> FiredOver(Thresholds, 0, n) == []
    ensures 20 <= n < 100 ==> FiredOver(Thresholds, 0, n) == [20]
    ensures 100 <= n < 200 ==> FiredOver(Thresholds, 0, n) == [20, 100]
    ensures 200 <= n < 500 ==> FiredOver(Thresholds, 0, n) == [20, 100, 200]
    ensures 500 <= n ==> FiredOver(Thresholds, 0, n) == [20, 100, 200, 500]
  {
    NewUserFiresReached(n);
    var fired := FiredOver(Thresholds, 0, n);
    if n < 20 {
      AscendingUnique(fired, []);
    } else if n < 100 {
      AscendingUnique(fired, [20]);
    } else if n < 200 {
      AscendingUnique(fired, [20, 100]);
    } else if n < 500 {
      AscendingUnique(fired, [20, 100, 200]);
    } else {
      AscendingUnique(fired, [20, 100, 200, 500]);
    }
  }
}
