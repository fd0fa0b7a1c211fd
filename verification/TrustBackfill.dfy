/** `scripts/backfill_trust_network_events.py`: the keyset loop over the contribution log and the replay
    into a receiver that ignores keys it knows. */
module TrustBackfill {
  import opened Prelude
  import opened PyText

  /** A log row; an absent deduplication key is "". */
  datatype Row = Row(id: nat, createdAt: int, store: string, phoneHash: string, eventType: string, dedupKey: string)

  datatype Query = Query(before: Option<int>, store: Option<string>)

  predicate Matches(q: Query, r: Row) {
    && (q.before.Some? ==> r.createdAt < q.before.value)
    && (q.store.Some? ==> r.store == q.store.value)
  }

  /** The table as `ORDER BY id` reads it. */
  predicate Ordered(log: seq<Row>) {
    forall i, j :: 0 <= i < j < |log| ==> log[i].id < log[j].id
  }

  function Matching(q: Query, log: seq<Row>): seq<Row> {
    if log == [] then []
    else if Matches(q, log[0]) then [log[0]] + Matching(q, log[1..])
    else Matching(q, log[1..])
  }

  lemma {:induction false} MatchingMembers(q: Query, log: seq<Row>)
    ensures forall x :: x in Matching(q, log) <==> x in log && Matches(q, x)
  {
    if log != [] {
      MatchingMembers(q, log[1..]);
    }
  }

  /** The rows with ids above `last`. */
  function After(last: Option<nat>, rows: seq<Row>): seq<Row> {
    if rows == [] then []
    else if last.None? || rows[0].id > last.value then [rows[0]] + After(last, rows[1..])
    else After(last, rows[1..])
  }

  function Take(rows: seq<Row>, n: nat): seq<Row> {
    if n <= |rows| then rows[..n] else rows
  }

  /** One query: at most `size` matching rows above `last`, by id. */
  function Batch(q: Query, log: seq<Row>, last: Option<nat>, size: nat): seq<Row> {
    Take(After(last, Matching(q, log)), size)
  }

  // ---- The log while the loop runs ---------------------------------------------------------------

  /** Between batches rows may arrive, anywhere in the order, provided the query's `before` shuts them out. */
  ghost predicate OnlyLateArrivals(q: Query, logAt: nat -> seq<Row>) {
    forall k :: Ordered(logAt(k)) && Arrived(q, logAt(0), logAt(k))
  }

  ghost predicate Arrived(q: Query, earlier: seq<Row>, later: seq<Row>) {
    && (forall r :: r in earlier ==> r in later)
    && (forall r :: r in later && r !in earlier ==> q.before.Some? && r.createdAt >= q.before.value)
  }

  lemma {:induction false} MatchingOrdered(q: Query, log: seq<Row>)
    requires Ordered(log)
    ensures Ordered(Matching(q, log))
  {
    if log != [] {
      assert Ordered(log[1..]);
      MatchingOrdered(q, log[1..]);
      MatchingMembers(q, log[1..]);
      forall r | r in log[1..] ensures log[0].id < r.id {
        var i :| 0 <= i < |log[1..]| && log[1..][i] == r;
        assert log[i + 1] == r;
      }
    }
  }

  /** An ordered sequence is determined by its elements. */
  lemma {:induction false} OrderedDetermined(a: seq<Row>, b: seq<Row>)
    requires Ordered(a) && Ordered(b) && forall r :: r in a <==> r in b
    ensures a == b
  {
    if a == [] {
      FirstIsMember(b);
    } else {
      assert a[0] in a && a[0] in b;
      assert b[0] in b && b[0] in a;
      var i :| 0 <= i < |b| && b[i] == a[0];
      var j :| 0 <= j < |a| && a[j] == b[0];
      assert a[0] == b[0];
      forall r ensures r in a[1..] <==> r in b[1..] {
        TailMember(a, r);
        TailMember(b, r);
      }
      OrderedDetermined(a[1..], b[1..]);
      assert a == [a[0]] + a[1..] && b == [b[0]] + b[1..];
    }
  }

  lemma FirstIsMember(a: seq<Row>)
    ensures a == [] || a[0] in a
  {
  }

  lemma TailMember(a: seq<Row>, r: Row)
    requires a != [] && Ordered(a)
    ensures r in a[1..] <==> r in a && r != a[0]
  {
    if r in a && r != a[0] {
      var i :| 0 <= i < |a| && a[i] == r;
      assert a[1..][i - 1] == r;
    }
    if r in a[1..] {
      var i :| 0 <= i < |a[1..]| && a[1..][i] == r;
      assert a[i + 1] == r;
    }
  }

  /** Late arrivals never match. */
  lemma MatchingIsStable(q: Query, logAt: nat -> seq<Row>, k: nat)
    requires OnlyLateArrivals(q, logAt)
    ensures Matching(q, logAt(k)) == Matching(q, logAt(0))
  {
    assert Ordered(logAt(k)) && Arrived(q, logAt(0), logAt(k)) && Ordered(logAt(0));
    MatchingOrdered(q, logAt(k));
    MatchingOrdered(q, logAt(0));
    MatchingMembers(q, logAt(k));
    MatchingMembers(q, logAt(0));
    OrderedDetermined(Matching(q, logAt(k)), Matching(q, logAt(0)));
  }

  /** The id of the last of the first `n` rows. */
  function LastId(all: seq<Row>, n: nat): Option<nat>
    requires n <= |all|
  {
    if n == 0 then None else Some(all[n - 1].id)
  }

  lemma {:induction false} AfterAll(last: Option<nat>, rows: seq<Row>)
    requires forall r :: r in rows ==> last.None? || r.id > last.value
    ensures After(last, rows) == rows
  {
    if rows != [] {
      assert rows[0] in rows;
      AfterAll(last, rows[1..]);
    }
  }

  lemma {:induction false} AfterSkips(last: nat, head: seq<Row>, tail: seq<Row>)
    requires forall r :: r in head ==> r.id <= last
    ensures After(Some(last), head + tail) == After(Some(last), tail)
  {
    if head == [] {
      assert head + tail == tail;
    } else {
      assert head[0] in head;
      assert (head + tail)[1..] == head[1..] + tail;
      AfterSkips(last, head[1..], tail);
    }
  }

  /** The keyset condition resumes exactly where the last batch ended. */
  lemma AfterLastId(all: seq<Row>, n: nat)
    requires Ordered(all) && n <= |all|
    ensures After(LastId(all, n), all) == all[n..]
  {
    if n == 0 {
      AfterAll(None, all);
    } else {
      var last, head, tail := all[n - 1].id, all[..n], all[n..];
      assert all == head + tail;
      HeadAndTail(all, n);
      AfterSkips(last, head, tail);
      AfterAll(Some(last), tail);
    }
  }

  lemma HeadAndTail(all: seq<Row>, n: nat)
    requires Ordered(all) && 0 < n <= |all|
    ensures forall r :: r in all[..n] ==> r.id <= all[n - 1].id
    ensures forall r :: r in all[n..] ==> r.id > all[n - 1].id
  {
    forall r | r in all[..n] ensures r.id <= all[n - 1].id {
      var i :| 0 <= i < n && all[i] == r;
    }
    forall r | r in all[n..] ensures r.id > all[n - 1].id {
      var i :| n <= i < |all| && all[i] == r;
    }
  }

  // ---- The run -----------------------------------------------------------------------------------

  datatype Summary = Summary(examined: nat, skippedOptedOut: nat, sent: nat, failed: nat)

  /** `_opted_out_store_ids`: only an explicit false opts out; NULL and a missing row do not. */
  function OptedOut(settings: seq<(string, Option<bool>)>): (r: set<string>)
    ensures forall s :: s in r <==> (s, Some(false)) in settings
  {
    set p | p in settings && p.1 == Some(false) :: p.0
  }

  function Consented(rows: seq<Row>, optedOut: set<string>): (r: seq<Row>)
    ensures |r| <= |rows|
  {
    if rows == [] then []
    else if rows[0].store !in optedOut then [rows[0]] + Consented(rows[1..], optedOut)
    else Consented(rows[1..], optedOut)
  }

  lemma {:induction false} ConsentedConcat(a: seq<Row>, b: seq<Row>, optedOut: set<string>)
    ensures Consented(a + b, optedOut) == Consented(a, optedOut) + Consented(b, optedOut)
  {
    if a == [] {
      assert a + b == b;
    } else {
      assert (a + b)[1..] == a[1..] + b;
      ConsentedConcat(a[1..], b, optedOut);
    }
  }

  /** No row of an opted-out store gets through, and every other row does. */
  lemma {:induction false} ConsentedMembers(rows: seq<Row>, optedOut: set<string>)
    ensures forall x :: x in Consented(rows, optedOut) <==> x in rows && x.store !in optedOut
  {
    if rows != [] {
      ConsentedMembers(rows[1..], optedOut);
    }
  }

  /** A post and whether it was acknowledged. */
  datatype Post = Post(row: Row, ok: bool)

  function Acknowledged(posts: seq<Post>): (n: nat)
    ensures n <= |posts|
    ensures n == |posts| <==> forall p :: p in posts ==> p.ok
  {
    if posts == [] then 0 else Acknowledged(posts[1..]) + if posts[0].ok then 1 else 0
  }

  function RowsOf(posts: seq<Post>): (r: seq<Row>)
    ensures |r| == |posts|
  {
    if posts == [] then [] else [posts[0].row] + RowsOf(posts[1..])
  }

  lemma {:induction false} RowsOfConcat(a: seq<Post>, b: seq<Post>)
    ensures RowsOf(a + b) == RowsOf(a) + RowsOf(b)
  {
    if a == [] {
      assert a + b == b;
    } else {
      assert (a + b)[1..] == a[1..] + b;
      RowsOfConcat(a[1..], b);
    }
  }

  lemma {:induction false} RowsOfAt(posts: seq<Post>, i: nat)
    requires i < |posts|
    ensures RowsOf(posts)[i] == posts[i].row
  {
    if i > 0 {
      RowsOfAt(posts[1..], i - 1);
    }
  }

  lemma {:induction false} AcknowledgedConcat(a: seq<Post>, b: seq<Post>)
    ensures Acknowledged(a + b) == Acknowledged(a) + Acknowledged(b)
  {
    if a == [] {
      assert a + b == b;
    } else {
      assert (a + b)[1..] == a[1..] + b;
      AcknowledgedConcat(a[1..], b);
    }
  }

  /** The post succeeds exactly when its row has a phone hash and the receiver says so. */
  predicate Answered(p: Post, answer: Row -> bool) {
    p.ok == (p.row.phoneHash != "" && answer(p.row))
  }

  /** `_send` for every row of a batch; a row without a phone hash is never posted and counts as failed. */
  method Gather(todo: seq<Row>, answer: Row -> bool) returns (posts: seq<Post>)
    ensures RowsOf(posts) == todo
    ensures forall p :: p in posts ==> Answered(p, answer)
  {
    posts := [];
    for i := 0 to |todo|
      invariant RowsOf(posts) == todo[..i]
      invariant forall p :: p in posts ==> Answered(p, answer)
    {
      var post := Post(todo[i], todo[i].phoneHash != "" && answer(todo[i]));
      RowsOfConcat(posts, [post]);
      assert RowsOf([post]) == [todo[i]];
      posts := posts + [post];
      assert todo[..i + 1] == todo[..i] + [todo[i]];
    }
    assert todo[..|todo|] == todo;
  }

  /** `_backfill`. `logAt(k)` is the log and `answer(k)` the receiver's behaviour when batch `k` runs. The
      loop ends having examined a prefix of the matching rows, each exactly once: all of them when there is
      no limit and the batch size is at least one. Opted-out rows are skipped, all others posted once. */
  method Backfill(q: Query, logAt: nat -> seq<Row>, answer: nat -> Row -> bool, optedOut: set<string>,
                  batchSize: nat, limit: int, dryRun: bool)
    returns (summary: Summary, posts: seq<Post>)
    requires OnlyLateArrivals(q, logAt)
    ensures summary.examined <= |Matching(q, logAt(0))|
    ensures batchSize == 0 ==> summary.examined == 0
    ensures batchSize > 0 && limit == 0 ==> summary.examined == |Matching(q, logAt(0))|
    ensures batchSize > 0 && limit > 0 ==> || summary.examined == |Matching(q, logAt(0))|
                                           || limit <= summary.examined < limit + batchSize
    ensures Accounts(summary, posts, Matching(q, logAt(0))[..summary.examined], optedOut, dryRun)
    ensures AllAnswered(posts, answer)
  {
    ghost var all := Matching(q, logAt(0));
    summary, posts := Summary(0, 0, 0, 0), [];
    var last: Option<nat> := None;
    var k: nat := 0;
    var more := true;
    while more
      invariant summary.examined <= |all| && last == LastId(all, summary.examined)
      invariant Accounts(summary, posts, all[..summary.examined], optedOut, dryRun)
      invariant StopsWell(summary.examined, |all|, batchSize, limit, more)
      invariant AllAnswered(posts, answer)
      decreases more, |all| - summary.examined
    {
      ghost var n := summary.examined;
      var rows := Batch(q, logAt(k), last, batchSize);
      BatchResumes(q, logAt, k, n, batchSize);
      BatchAdvances(all, n, batchSize, rows);
      if rows == [] {
        more := false;
      } else {
        last := Some(rows[|rows| - 1].id);
        ghost var m := n + |rows|;
        assert last == LastId(all, m);
        ghost var sofar := posts;
        summary, posts := Process(summary, posts, all[..n], rows, answer(k), optedOut, dryRun);
        MoreAnswered(sofar, posts, answer, k);
        assert summary.examined == m && all[..n] + rows == all[..m];
        if limit != 0 && summary.examined >= limit {
          more := false;
        }
      }
      k := k + 1;
    }
  }

  /** Every post succeeded as the receiver answered it in some batch. */
  ghost predicate AllAnswered(posts: seq<Post>, answer: nat -> Row -> bool) {
    forall p :: p in posts ==> exists k :: Answered(p, answer(k))
  }

  lemma MoreAnswered(sofar: seq<Post>, posts: seq<Post>, answer: nat -> Row -> bool, k: nat)
    requires AllAnswered(sofar, answer)
    requires forall p :: p in posts ==> p in sofar || Answered(p, answer(k))
    ensures AllAnswered(posts, answer)
  {
  }

  /** How far the loop may have come, and what it means that it has stopped. */
  predicate StopsWell(examined: nat, all: nat, batchSize: nat, limit: int, more: bool) {
    && (batchSize == 0 ==> examined == 0)
    && (more && limit > 0 ==> examined < limit)
    && (!more && batchSize > 0 ==> examined == all || (limit != 0 && examined >= limit))
    && (limit > 0 && batchSize > 0 ==> examined < limit + batchSize)
  }

  lemma BatchResumes(q: Query, logAt: nat -> seq<Row>, k: nat, n: nat, size: nat)
    requires OnlyLateArrivals(q, logAt) && n <= |Matching(q, logAt(0))|
    ensures var all := Matching(q, logAt(0));
            Batch(q, logAt(k), LastId(all, n), size) == Take(all[n..], size)
  {
    assert Ordered(logAt(0));
    MatchingOrdered(q, logAt(0));
    MatchingIsStable(q, logAt, k);
    AfterLastId(Matching(q, logAt(0)), n);
  }

  /** A batch continues the prefix examined so far; an empty one means that nothing is left. */
  lemma BatchAdvances(all: seq<Row>, n: nat, size: nat, rows: seq<Row>)
    requires n <= |all| && rows == Take(all[n..], size)
    ensures n + |rows| <= |all| && |rows| <= size && all[..n + |rows|] == all[..n] + rows
    ensures rows == [] ==> n == |all| || size == 0
    ensures rows != [] ==> Some(rows[|rows| - 1].id) == LastId(all, n + |rows|)
  {
  }

  /** The counters and posts after examining the rows: opted-out rows are skipped, all others posted once
      in order (only counted as sent in a dry run), and nothing is lost between the counters. */
  ghost predicate Accounts(s: Summary, posts: seq<Post>, examined: seq<Row>, optedOut: set<string>, dryRun: bool) {
    && s.examined == |examined| == s.skippedOptedOut + s.sent + s.failed
    && s.skippedOptedOut == |examined| - |Consented(examined, optedOut)|
    && (dryRun ==> posts == [] && s.failed == 0)
    && (!dryRun ==> RowsOf(posts) == Consented(examined, optedOut) && s.sent == Acknowledged(posts))
  }

  /** The counters and posts for one batch. */
  method Process(before: Summary, sofar: seq<Post>, ghost done: seq<Row>, rows: seq<Row>, answer: Row -> bool,
                 optedOut: set<string>, dryRun: bool) returns (summary: Summary, posts: seq<Post>)
    requires Accounts(before, sofar, done, optedOut, dryRun)
    ensures summary.examined == before.examined + |rows|
    ensures Accounts(summary, posts, done + rows, optedOut, dryRun)
    ensures forall p :: p in posts ==> p in sofar || Answered(p, answer)
  {
    var todo := Consented(rows, optedOut);
    summary := before.(examined := before.examined + |rows|,
                       skippedOptedOut := before.skippedOptedOut + |rows| - |todo|);
    posts := sofar;
    if dryRun {
      summary := summary.(sent := summary.sent + |todo|);
      ConsentedConcat(done, rows, optedOut);
    } else {
      var results := Gather(todo, answer);
      var ok := Acknowledged(results);
      summary := summary.(sent := summary.sent + ok, failed := summary.failed + |results| - ok);
      posts := sofar + results;
      AccountsPosted(before, sofar, done, rows, results, optedOut);
    }
  }

  lemma AccountsPosted(before: Summary, sofar: seq<Post>, done: seq<Row>, rows: seq<Row>, results: seq<Post>,
                       optedOut: set<string>)
    requires Accounts(before, sofar, done, optedOut, false) && RowsOf(results) == Consented(rows, optedOut)
    ensures var ok := Acknowledged(results);
            Accounts(Summary(before.examined + |rows|, before.skippedOptedOut + |rows| - |results|, before.sent + ok,
                             before.failed + |results| - ok), sofar + results, done + rows, optedOut, false)
  {
    ConsentedConcat(done, rows, optedOut);
    AcknowledgedConcat(sofar, results);
    RowsOfConcat(sofar, results);
    assert |RowsOf(results)| == |results|;
  }

  // ---- The receiver ------------------------------------------------------------------------------

  datatype Event = Event(key: string, buyerToken: string, eventType: string)

  /** `row.dedup_key or f"numu:{row.id}"` */
  function Key(r: Row): string {
    if r.dedupKey != "" then r.dedupKey else "numu:" + Digits(r.id)
  }

  function EventOf(r: Row): Event {
    Event(Key(r), r.phoneHash, r.eventType)
  }

  predicate Knows(events: seq<Event>, key: string) {
    exists e :: e in events && e.key == key
  }

  /** What reached the receiver of one attempt: a post whose answer was lost may still have been recorded. */
  datatype Attempt = Attempt(row: Row, delivered: bool)

  /** The receiver records a delivered event unless it knows the key. */
  function Receive(events: seq<Event>, a: Attempt): seq<Event> {
    if a.delivered && !Knows(events, Key(a.row)) then events + [EventOf(a.row)] else events
  }

  function ReceiveAll(events: seq<Event>, attempts: seq<Attempt>): seq<Event> {
    if attempts == [] then events
    else Receive(ReceiveAll(events, attempts[..|attempts| - 1]), attempts[|attempts| - 1])
  }

  ghost predicate KeysDistinct(events: seq<Event>) {
    Distinct(EventKeys(events))
  }

  /** The rows have different keys. */
  ghost predicate RowKeysDistinct(rows: seq<Row>) {
    Distinct(RowKeys(rows))
  }

  /** A failure-free run over the rows, in any order and with any repetitions. */
  ghost predicate CompleteRun(attempts: seq<Attempt>, rows: seq<Row>) {
    && (forall a :: a in attempts ==> a.delivered && a.row in rows)
    && (forall r :: r in rows ==> exists a :: a in attempts && a.row == r)
  }

  lemma {:induction false} ReceivedMeans(events: seq<Event>, attempts: seq<Attempt>)
    requires KeysDistinct(events)
    ensures var after := ReceiveAll(events, attempts);
            && KeysDistinct(after) && events <= after
            && (forall e :: e in after
                            ==> e in events || exists a :: a in attempts && a.delivered && e == EventOf(a.row))
            && (forall a :: a in attempts && a.delivered ==> Knows(after, Key(a.row)))
  {
    if attempts != [] {
      var init, last := attempts[..|attempts| - 1], attempts[|attempts| - 1];
      ReceivedMeans(events, init);
      var mid, after := ReceiveAll(events, init), ReceiveAll(events, attempts);
      assert attempts == init + [last] && last in attempts;
      forall key | Knows(mid, key) ensures Knows(after, key) {
        var e :| e in mid && e.key == key;
        assert e in after;
      }
      assert last.delivered ==> Knows(after, Key(last.row)) by {
        if last.delivered && !Knows(mid, Key(last.row)) {
          assert EventOf(last.row) in after;
        }
      }
      if after != mid {
        forall i | 0 <= i < |mid| ensures mid[i].key != Key(last.row) {
          assert mid[i] in mid;
        }
      }
    }
  }

  /** Events with the given key. */
  function Having(events: seq<Event>, key: string): seq<Event> {
    if events == [] then []
    else if events[0].key == key then [events[0]] + Having(events[1..], key)
    else Having(events[1..], key)
  }

  lemma {:induction false} HavingOne(events: seq<Event>, e: Event)
    requires KeysDistinct(events) && e in events
    ensures Having(events, e.key) == [e]
  {
    if events[0] == e {
      forall x | x in events[1..] ensures x.key != e.key {
        var i :| 0 <= i < |events[1..]| && events[1..][i] == x;
        assert events[i + 1] == x;
      }
      HavingNone(events[1..], e.key);
    } else {
      assert e in events[1..];
      var i :| 0 <= i < |events| && events[i] == e;
      HavingOne(events[1..], e);
    }
  }

  lemma {:induction false} HavingNone(events: seq<Event>, key: string)
    requires forall x :: x in events ==> x.key != key
    ensures Having(events, key) == []
  {
    if events != [] {
      assert events[0] in events;
      HavingNone(events[1..], key);
    }
  }

  /** Every row arrived at least once. */
  ghost predicate Covers(attempts: seq<Attempt>, rows: seq<Row>) {
    forall r :: r in rows ==> exists a :: a in attempts && a.delivered && a.row == r
  }

  /** Nobody posts the row's key for another row. */
  ghost predicate OwnsKey(attempts: seq<Attempt>, r: Row) {
    forall a :: a in attempts && Key(a.row) == Key(r) ==> a.row == r
  }

  /** Exactly-once in effect, whatever the receiver holds before and whatever else arrives in between
      (interrupted and partly failed runs, posts of the live feed), in any order: once every row has arrived,
      earlier events are still there, each row's key has exactly one event, which is the row's own if the key
      was not known before and nobody else posted it, and no other event is new. */
  lemma ReplayIsExactlyOnce(events: seq<Event>, rows: seq<Row>, attempts: seq<Attempt>)
    requires KeysDistinct(events) && Covers(attempts, rows)
    ensures var after := ReceiveAll(events, attempts);
            && events <= after
            && (forall r :: r in rows ==> |Having(after, Key(r))| == 1)
            && (forall r :: r in rows && !Knows(events, Key(r)) && OwnsKey(attempts, r)
                            ==> Having(after, Key(r)) == [EventOf(r)])
            && (forall e :: e in after
                            ==> e in events || exists a :: a in attempts && a.delivered && e == EventOf(a.row))
  {
    var after := ReceiveAll(events, attempts);
    ReceivedMeans(events, attempts);
    forall r | r in rows
      ensures |Having(after, Key(r))| == 1
      ensures !Knows(events, Key(r)) && OwnsKey(attempts, r) ==> Having(after, Key(r)) == [EventOf(r)]
    {
      var a :| a in attempts && a.delivered && a.row == r;
      assert Knows(after, Key(r));
      var e :| e in after && e.key == Key(r);
      HavingOne(after, e);
      if !Knows(events, Key(r)) && OwnsKey(attempts, r) {
        assert e !in events;
        var b :| b in attempts && b.delivered && e == EventOf(b.row);
        assert Key(b.row) == Key(r);
      }
    }
  }

  predicate ExplicitKeysDistinct(rows: seq<Row>) {
    forall i, j :: 0 <= i < j < |rows| && rows[i].dedupKey != "" && rows[j].dedupKey != ""
      ==> rows[i].dedupKey != rows[j].dedupKey
  }

  /** No row has the key that is made up for a row without one. */
  predicate NoMadeUpKeys(rows: seq<Row>) {
    forall i, j :: 0 <= i < |rows| && 0 <= j < |rows| && rows[i].dedupKey != "" && rows[j].dedupKey == ""
      ==> rows[i].dedupKey != "numu:" + Digits(rows[j].id)
  }

  lemma MadeUpKeysDiffer(m: nat, n: nat)
    requires m != n
    ensures "numu:" + Digits(m) != "numu:" + Digits(n)
  {
    DigitsRoundTrip(m);
    DigitsRoundTrip(n);
    assert ("numu:" + Digits(m))[5..] == Digits(m) && ("numu:" + Digits(n))[5..] == Digits(n);
  }

  /** The rows of the log have different keys exactly when those that are given are different and none of them
      is one that is made up: the made-up ones never clash with each other. */
  lemma RowKeysDistinctExactly(rows: seq<Row>)
    requires Ordered(rows)
    ensures RowKeysDistinct(rows) <==> ExplicitKeysDistinct(rows) && NoMadeUpKeys(rows)
  {
    var keys := RowKeys(rows);
    if ExplicitKeysDistinct(rows) && NoMadeUpKeys(rows) {
      forall i, j | 0 <= i < j < |keys| ensures keys[i] != keys[j] {
        if rows[i].dedupKey == "" && rows[j].dedupKey == "" {
          MadeUpKeysDiffer(rows[i].id, rows[j].id);
        }
      }
    }
    if RowKeysDistinct(rows) {
      forall i, j | 0 <= i < |rows| && 0 <= j < |rows| && rows[i].dedupKey != "" && rows[j].dedupKey == ""
        ensures rows[i].dedupKey != "numu:" + Digits(rows[j].id)
      {
        assert keys[i] == rows[i].dedupKey && keys[j] == "numu:" + Digits(rows[j].id);
        assert if i < j then keys[i] != keys[j] else keys[j] != keys[i];
      }
      forall i, j | 0 <= i < j < |rows| && rows[i].dedupKey != "" && rows[j].dedupKey != ""
        ensures rows[i].dedupKey != rows[j].dedupKey
      {
        assert keys[i] == rows[i].dedupKey && keys[j] == rows[j].dedupKey;
      }
    }
  }

  lemma SameKeySameRow(rows: seq<Row>, r: Row, s: Row)
    requires RowKeysDistinct(rows) && r in rows && s in rows && Key(r) == Key(s)
    ensures r == s
  {
    var i :| 0 <= i < |rows| && rows[i] == r;
    var j :| 0 <= j < |rows| && rows[j] == s;
  }

  /** Distinct keys are exactly what it takes: otherwise some row's event is missing after any complete run. */
  lemma OneEventPerRowExactly(rows: seq<Row>, final: seq<Attempt>)
    requires CompleteRun(final, rows)
    ensures |ReceiveAll([], final)| == |rows| <==> RowKeysDistinct(rows)
  {
    var after := ReceiveAll([], final);
    ReceivedMeans([], final);
    forall key ensures key in RowKeys(rows) <==> key in EventKeys(after) {
      SameKeys(rows, final, after, key);
    }
    assert (set k | k in RowKeys(rows)) == (set k | k in EventKeys(after));
    DistinctExactly(RowKeys(rows));
    DistinctExactly(EventKeys(after));
  }

  lemma SameKeys(rows: seq<Row>, final: seq<Attempt>, after: seq<Event>, key: string)
    requires CompleteRun(final, rows)
    requires forall e :: e in after ==> exists a :: a in final && a.delivered && e == EventOf(a.row)
    requires forall a :: a in final && a.delivered ==> Knows(after, Key(a.row))
    ensures key in RowKeys(rows) <==> key in EventKeys(after)
  {
    var keys, known := RowKeys(rows), EventKeys(after);
    if key in keys {
      var i :| 0 <= i < |keys| && keys[i] == key;
      assert rows[i] in rows;
      var a :| a in final && a.row == rows[i];
      var e :| e in after && e.key == key;
      var j :| 0 <= j < |after| && after[j] == e;
      assert known[j] == key;
    }
    if key in known {
      var j :| 0 <= j < |known| && known[j] == key;
      assert after[j] in after;
      var a :| a in final && a.delivered && after[j] == EventOf(a.row);
      var i :| 0 <= i < |rows| && rows[i] == a.row;
      assert keys[i] == key;
    }
  }

  function EventKeys(events: seq<Event>): (keys: seq<string>)
    ensures |keys| == |events| && forall i :: 0 <= i < |keys| ==> keys[i] == events[i].key
  {
    seq(|events|, i requires 0 <= i < |events| => events[i].key)
  }

  function RowKeys(rows: seq<Row>): (keys: seq<string>)
    ensures |keys| == |rows| && forall i :: 0 <= i < |keys| ==> keys[i] == Key(rows[i])
  {
    seq(|rows|, i requires 0 <= i < |rows| => Key(rows[i]))
  }

  predicate Distinct(keys: seq<string>) {
    forall i, j :: 0 <= i < j < |keys| ==> keys[i] != keys[j]
  }

  lemma {:induction false} DistinctExactly(keys: seq<string>)
    ensures |set k | k in keys| <= |keys|
    ensures |set k | k in keys| == |keys| <==> Distinct(keys)
  {
    if keys != [] {
      var first, rest := keys[0], keys[1..];
      DistinctExactly(rest);
      assert keys == [first] + rest;
      assert (set k | k in keys) == (set k | k in rest) + {first};
      if first in rest {
        assert (set k | k in keys) == (set k | k in rest);
        var i :| 0 <= i < |rest| && rest[i] == first;
        assert keys[i + 1] == keys[0];
      } else {
        DistinctCons(first, rest);
      }
    }
  }

  lemma DistinctCons(first: string, rest: seq<string>)
    requires first !in rest
    ensures Distinct([first] + rest) <==> Distinct(rest)
  {
    var keys := [first] + rest;
    if Distinct(keys) {
      forall i, j | 0 <= i < j < |rest| ensures rest[i] != rest[j] {
        assert rest[i] == keys[i + 1] && rest[j] == keys[j + 1];
      }
    }
    if Distinct(rest) {
      forall i, j | 0 <= i < j < |keys| ensures keys[i] != keys[j] {
        assert keys[j] == rest[j - 1] && rest[j - 1] in rest;
        assert i > 0 ==> keys[i] == rest[i - 1];
      }
    }
  }

  /** The posts of a backfill whose summary shows no failure are a failure-free run over the consented rows. */
  lemma CleanSummaryIsComplete(posts: seq<Post>, rows: seq<Row>, attempts: seq<Attempt>)
    requires RowsOf(posts) == rows && Acknowledged(posts) == |posts|
    requires |attempts| == |posts|
    requires forall i :: 0 <= i < |posts| ==> attempts[i].row == posts[i].row && (posts[i].ok ==> attempts[i].delivered)
    ensures CompleteRun(attempts, rows)
  {
    forall a | a in attempts ensures a.delivered && a.row in rows {
      var i :| 0 <= i < |attempts| && attempts[i] == a;
      RowsOfAt(posts, i);
      assert posts[i] in posts && rows[i] == a.row;
    }
    forall r | r in rows ensures exists a :: a in attempts && a.row == r {
      var i :| 0 <= i < |rows| && rows[i] == r;
      RowsOfAt(posts, i);
      assert attempts[i] in attempts && attempts[i].row == r;
    }
  }

  /** The rows that the backfill is for: of the log, from before the given time and of the given store, if
      any, and of no store that opted out. */
  predicate InScope(q: Query, log: seq<Row>, optedOut: set<string>, r: Row) {
    && r in log && r.store !in optedOut
    && (q.before == None || r.createdAt < q.before.value)
    && (q.store == None || r.store == q.store.value)
  }

  /** The whole replay: a backfill over all matching rows whose summary shows no failure, amid earlier runs
      over the consented rows and posts of the live feed (`live`), on a receiver with any events. Whatever the
      order of arrival, every consented row's key has exactly one event, the row's own if the key is neither
      known before nor the live feed's; earlier events stay; and every new one is of a consented row or live,
      so that none comes from an opted-out store otherwise. */
  lemma CleanBackfillIsExactlyOnce(q: Query, log: seq<Row>, optedOut: set<string>, summary: Summary, posts: seq<Post>,
                                   attempts: seq<Attempt>, events: seq<Event>, live: seq<Row>, arrived: seq<Attempt>)
    requires Accounts(summary, posts, Matching(q, log), optedOut, false) && summary.failed == 0
    requires |attempts| == |posts|
    requires forall i :: 0 <= i < |posts| ==> attempts[i].row == posts[i].row && (posts[i].ok ==> attempts[i].delivered)
    requires KeysDistinct(events)
    requires forall a :: a in attempts ==> a in arrived
    requires forall a :: a in arrived ==> a.row in Consented(Matching(q, log), optedOut) || a.row in live
    requires RowKeysDistinct(Consented(Matching(q, log), optedOut))
    ensures var after := ReceiveAll(events, arrived);
            && events <= after
            && (forall r :: InScope(q, log, optedOut, r) ==> |Having(after, Key(r))| == 1)
            && (forall r :: InScope(q, log, optedOut, r) && !Knows(events, Key(r))
                            && (forall l :: l in live ==> Key(l) != Key(r))
                            ==> Having(after, Key(r))
                                == [Event(if r.dedupKey != "" then r.dedupKey else "numu:" + Digits(r.id),
                                          r.phoneHash, r.eventType)])
            && (forall e :: e in after && e !in events
                            ==> exists r :: e == EventOf(r) && (r in live || InScope(q, log, optedOut, r)))
  {
    var rows := Consented(Matching(q, log), optedOut);
    CleanSummaryIsComplete(posts, rows, attempts);
    assert Covers(arrived, rows);
    ReplayIsExactlyOnce(events, rows, arrived);
    ConsentedMembers(Matching(q, log), optedOut);
    MatchingMembers(q, log);
    forall r | r in rows && forall l :: l in live ==> Key(l) != Key(r) ensures OwnsKey(arrived, r) {
      forall a | a in arrived && Key(a.row) == Key(r) ensures a.row == r {
        SameKeySameRow(rows, r, a.row);
      }
    }
  }
}
