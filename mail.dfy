/** The message record shared by the server route and the client, and the
    stable newest-first ordering both of them apply to lists of records. */
module Mail {

  datatype Option<T> = None | Some(value: T)

  datatype Sender = Sender(name: string, email: string, color: string)

  /** One inbox message. `timestamp` is the message's internal date in epoch
      milliseconds; `isPinned` is recomputed from the client's pin set on
      every fetch; `summary` is absent until a summary has been received. */
  datatype Email = Email(
    id: string,
    sender: Sender,
    subject: string,
    snippet: string,
    body: string,
    date: string,
    timestamp: int,
    isPinned: bool,
    hasSummary: bool,
    summary: Option<string>)

  // ---------------------------------------------------------------------
  // Sorting by `(a, b) => b.timestamp - a.timestamp` with a stable sort

  ghost predicate NewestFirst(s: seq<Email>) {
    forall i, j :: 0 <= i < j < |s| ==> s[i].timestamp >= s[j].timestamp
  }

  /** The records of `s` whose timestamp is `t`, in their order in `s`. */
  function WithTimestamp(s: seq<Email>, t: int): (r: seq<Email>)
    ensures forall e :: e in r <==> e in s && e.timestamp == t
  {
    if s == [] then []
    else if s[0].timestamp == t then [s[0]] + WithTimestamp(s[1..], t)
    else WithTimestamp(s[1..], t)
  }

  /** Places `x` in front of the first record that is not newer than it. */
  function Insert(x: Email, s: seq<Email>): (r: seq<Email>)
    ensures multiset(r) == multiset(s) + multiset{x}
  {
    if s == [] || s[0].timestamp <= x.timestamp then [x] + s
    else
      assert s == [s[0]] + s[1..];
      [s[0]] + Insert(x, s[1..])
  }

  /** Inserting into a newest-first list keeps it newest first. */
  lemma {:induction false} InsertKeepsOrder(x: Email, s: seq<Email>)
    requires NewestFirst(s)
    ensures NewestFirst(Insert(x, s))
  {
    if s != [] && x.timestamp < s[0].timestamp {
      var tail := Insert(x, s[1..]);
      InsertKeepsOrder(x, s[1..]);
      forall k | 0 <= k < |tail|
        ensures tail[k].timestamp <= s[0].timestamp
      {
        assert tail[k] in multiset(tail);
        if tail[k] != x {
          assert tail[k] in multiset(s[1..]);
          var j :| 0 <= j < |s[1..]| && s[1..][j] == tail[k];
          assert s[j + 1] == tail[k];
        }
      }
    }
  }

  /** The stable sort that puts newer records first. */
  function SortNewestFirst(s: seq<Email>): (r: seq<Email>)
    ensures NewestFirst(r)
    ensures multiset(r) == multiset(s)
  {
    if s == [] then []
    else
      assert s == [s[0]] + s[1..];
      var rest := SortNewestFirst(s[1..]);
      InsertKeepsOrder(s[0], rest);
      Insert(s[0], rest)
  }

  lemma WithTimestampAppend(a: seq<Email>, b: seq<Email>, t: int)
    ensures WithTimestamp(a + b, t) == WithTimestamp(a, t) + WithTimestamp(b, t)
  {
    if a != [] {
      assert (a + b)[0] == a[0];
      assert (a + b)[1..] == a[1..] + b;
      WithTimestampAppend(a[1..], b, t);
    } else {
      assert a + b == b;
    }
  }

  lemma WithTimestampSingle(e: Email, t: int)
    ensures WithTimestamp([e], t) == if e.timestamp == t then [e] else []
  {
    assert [e][1..] == [];
  }

  /** Inserting `x` moves it only past records strictly newer than it, so
      the records of every timestamp keep their relative order. */
  lemma {:induction false} InsertKeepsTies(x: Email, s: seq<Email>, t: int)
    ensures WithTimestamp(Insert(x, s), t) == WithTimestamp([x] + s, t)
  {
    if s != [] && x.timestamp < s[0].timestamp {
      var a, s1 := s[0], s[1..];
      var tail := Insert(x, s1);
      InsertKeepsTies(x, s1, t);
      assert Insert(x, s) == [a] + tail;
      assert [a] + s1 == s;
      PassNewer(x, a, s1, tail, t);
    }
  }

  /** One step of the insertion: `x` passes `a`, which is strictly newer, so
      at most one of the two has timestamp `t` and their order does not show. */
  lemma PassNewer(x: Email, a: Email, s1: seq<Email>, tail: seq<Email>, t: int)
    requires x.timestamp < a.timestamp
    requires WithTimestamp(tail, t) == WithTimestamp([x] + s1, t)
    ensures WithTimestamp([a] + tail, t) == WithTimestamp([x] + ([a] + s1), t)
  {
    WithTimestampAppend([a], tail, t);
    WithTimestampAppend([x], s1, t);
    WithTimestampAppend([a], s1, t);
    WithTimestampAppend([x], [a] + s1, t);
    WithTimestampSingle(a, t);
    WithTimestampSingle(x, t);
  }

  /** Stability: records with equal timestamps keep their input order. */
  lemma {:induction false} SortIsStable(s: seq<Email>, t: int)
    ensures WithTimestamp(SortNewestFirst(s), t) == WithTimestamp(s, t)
  {
    if s != [] {
      var rest := SortNewestFirst(s[1..]);
      InsertKeepsTies(s[0], rest, t);
      SortIsStable(s[1..], t);
      WithTimestampAppend([s[0]], rest, t);
      WithTimestampAppend([s[0]], s[1..], t);
      assert [s[0]] + s[1..] == s;
    }
  }

  /** A list that is already newest first is left as it is. */
  lemma {:induction false} SortKeepsSorted(s: seq<Email>)
    requires NewestFirst(s)
    ensures SortNewestFirst(s) == s
  {
    if s != [] {
      SortKeepsSorted(s[1..]);
      assert SortNewestFirst(s[1..]) == s[1..];
      assert s[1..] == [] || s[1..][0].timestamp <= s[0].timestamp;
      assert [s[0]] + s[1..] == s;
    }
  }
}
