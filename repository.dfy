/**
 * The archive repository: the two-party conversation query and the store
 * the service appends to.
 */
module Repository {
  import opened Wrappers
  import opened Entity

  /** The WHERE clause of the query: a message from either party to the other. */
  predicate Matches(m: ArchivedMessage, jid1: string, jid2: string) {
    || (m.fromJid == Some(jid1) && m.toJid == Some(jid2))
    || (m.fromJid == Some(jid2) && m.toJid == Some(jid1))
  }

  /** The records the WHERE clause selects, in storage order. */
  function Between(records: seq<ArchivedMessage>, jid1: string, jid2: string): (r: seq<ArchivedMessage>)
    ensures forall m :: multiset(r)[m] == if Matches(m, jid1, jid2) then multiset(records)[m] else 0
  {
    if records == [] then []
    else
      var last := records[|records| - 1];
      var init := records[..|records| - 1];
      assert records == init + [last];
      Between(init, jid1, jid2) + if Matches(last, jid1, jid2) then [last] else []
  }

  /** ORDER BY sentDate ASC. */
  predicate SortedByDate(s: seq<ArchivedMessage>) {
    forall i, j :: 0 <= i < j < |s| ==> s[i].sentDate <= s[j].sentDate
  }

  function InsertByDate(m: ArchivedMessage, s: seq<ArchivedMessage>): (r: seq<ArchivedMessage>)
    requires SortedByDate(s)
    ensures SortedByDate(r)
    ensures multiset(r) == multiset(s) + multiset{m}
  {
    if s == [] || m.sentDate <= s[0].sentDate then [m] + s
    else
      var rest := InsertByDate(m, s[1..]);
      assert s == [s[0]] + s[1..];
      LowerBoundKept(s[0].sentDate, s[1..], m, rest);
      [s[0]] + rest
  }

  /** Inserting a record no earlier than `d` into records no earlier than `d` keeps every record no earlier than `d`. */
  lemma LowerBoundKept(d: int, s: seq<ArchivedMessage>, m: ArchivedMessage, r: seq<ArchivedMessage>)
    requires forall k :: 0 <= k < |s| ==> d <= s[k].sentDate
    requires d <= m.sentDate
    requires multiset(r) == multiset(s) + multiset{m}
    ensures forall k :: 0 <= k < |r| ==> d <= r[k].sentDate
  {
    forall k | 0 <= k < |r| ensures d <= r[k].sentDate {
      assert r[k] in multiset(r);
      if r[k] != m {
        assert r[k] in multiset(s);
        var j :| 0 <= j < |s| && s[j] == r[k];
      }
    }
  }

  function SortByDate(s: seq<ArchivedMessage>): (r: seq<ArchivedMessage>)
    ensures SortedByDate(r)
    ensures multiset(r) == multiset(s)
  {
    if s == [] then []
    else
      assert s == s[..|s| - 1] + [s[|s| - 1]];
      InsertByDate(s[|s| - 1], SortByDate(s[..|s| - 1]))
  }

  /**
   * What findConversation promises: the matching records, each as often as
   * it is stored, ascending by sentDate. The order among equal sentDates is
   * left open.
   */
  predicate IsConversation(records: seq<ArchivedMessage>, jid1: string, jid2: string, r: seq<ArchivedMessage>) {
    SortedByDate(r) && multiset(r) == multiset(Between(records, jid1, jid2))
  }

  /** One answer to the query, for use in functions and lemmas. */
  function Conversation(records: seq<ArchivedMessage>, jid1: string, jid2: string): (r: seq<ArchivedMessage>)
    ensures IsConversation(records, jid1, jid2, r)
  {
    SortByDate(Between(records, jid1, jid2))
  }

  /**
   * The archive table. `save` inserts a new row and the identity column
   * gives it the next id; no row is ever updated or deleted.
   */
  class ArchiveRepository {
    var records: seq<ArchivedMessage>
    var nextId: int

    /** Every row has an id, below the next one to hand out, and no two rows share one. */
    ghost predicate Valid()
      reads this
    {
      && (forall i :: 0 <= i < |records| ==> records[i].id.Some? && records[i].id.value < nextId)
      && (forall i, j :: 0 <= i < j < |records| ==> records[i].id != records[j].id)
    }

    /** An empty table. */
    constructor ()
      ensures Valid() && records == []
    {
      records, nextId := [], 1;
    }

    /** Inserts a new entity (one without an id) as the last row. */
    method Save(m: ArchivedMessage) returns (saved: ArchivedMessage)
      requires Valid() && m.id == None
      modifies this
      ensures Valid()
      ensures saved == m.(id := Some(old(nextId)))
      ensures records == old(records) + [saved]
      ensures nextId > old(nextId)
    {
      saved := m.(id := Some(nextId));
      records := records + [saved];
      nextId := nextId + 1;
    }

    /** findConversation(jid1, jid2); reads the table and changes nothing. */
    method FindConversation(jid1: string, jid2: string) returns (r: seq<ArchivedMessage>)
      ensures IsConversation(records, jid1, jid2, r)
    {
      r := Conversation(records, jid1, jid2);
    }
  }

  /** Soundness: every returned record is stored and is between the two parties. */
  lemma ConversationSound(records: seq<ArchivedMessage>, jid1: string, jid2: string, r: seq<ArchivedMessage>, m: ArchivedMessage)
    requires IsConversation(records, jid1, jid2, r) && m in r
    ensures Matches(m, jid1, jid2) && m in records
  {
  }

  /** Completeness: every stored record between the two parties is returned, as often as it is stored. */
  lemma ConversationComplete(records: seq<ArchivedMessage>, jid1: string, jid2: string, r: seq<ArchivedMessage>, m: ArchivedMessage)
    requires IsConversation(records, jid1, jid2, r) && m in records && Matches(m, jid1, jid2)
    ensures m in r && multiset(r)[m] == multiset(records)[m]
  {
  }

  /** The result is a sub-multiset of the store. */
  lemma ConversationWithinStore(records: seq<ArchivedMessage>, jid1: string, jid2: string, r: seq<ArchivedMessage>)
    requires IsConversation(records, jid1, jid2, r)
    ensures multiset(r) <= multiset(records)
  {
  }

  /** Argument order does not matter: an answer for (jid1, jid2) is an answer for (jid2, jid1). */
  lemma ConversationSymmetric(records: seq<ArchivedMessage>, jid1: string, jid2: string, r: seq<ArchivedMessage>)
    requires IsConversation(records, jid1, jid2, r)
    ensures IsConversation(records, jid2, jid1, r)
  {
  }

  /** A record that involves an identity other than the two parties is never returned. */
  lemma ThirdPartyExcluded(records: seq<ArchivedMessage>, jid1: string, jid2: string, r: seq<ArchivedMessage>,
                           m: ArchivedMessage, other: string)
    requires IsConversation(records, jid1, jid2, r)
    requires other != jid1 && other != jid2
    requires m.fromJid == Some(other) || m.toJid == Some(other)
    ensures m !in r
  {
    if m in r {
      ConversationSound(records, jid1, jid2, r, m);
    }
  }

  /** Querying a party with itself yields exactly its self-addressed records. */
  lemma SelfConversation(records: seq<ArchivedMessage>, jid: string, r: seq<ArchivedMessage>, m: ArchivedMessage)
    requires IsConversation(records, jid, jid, r)
    ensures m in r <==> m in records && m.fromJid == Some(jid) && m.toJid == Some(jid)
  {
    if m in r {
      ConversationSound(records, jid, jid, r, m);
    } else if m in records && Matches(m, jid, jid) {
      ConversationComplete(records, jid, jid, r, m);
    }
  }

  /** Removing one record from an ascending sequence leaves it ascending. */
  lemma RemoveAt(r: seq<ArchivedMessage>, k: nat) returns (rest: seq<ArchivedMessage>)
    requires k < |r| && SortedByDate(r)
    ensures SortedByDate(rest) && |rest| == |r| - 1
    ensures multiset(rest) == multiset(r) - multiset{r[k]}
    ensures forall a :: 0 <= a < |rest| ==> rest[a] == r[if a < k then a else a + 1]
  {
    rest := r[..k] + r[k + 1..];
    assert forall a :: 0 <= a < |rest| ==> rest[a] == r[if a < k then a else a + 1];
    forall a, b | 0 <= a < b < |rest| ensures rest[a].sentDate <= rest[b].sentDate {
      var a', b' := if a < k then a else a + 1, if b < k then b else b + 1;
      assert rest[a] == r[a'] && rest[b] == r[b'] && a' < b';
    }
    calc {
      multiset(r);
      { assert r == r[..k] + [r[k]] + r[k + 1..]; }
      multiset(r[..k]) + multiset{r[k]} + multiset(r[k + 1..]);
    }
  }

  /** Two ascending arrangements of the same records start at the same sentDate. */
  lemma HeadsShareDate(r1: seq<ArchivedMessage>, r2: seq<ArchivedMessage>)
    requires SortedByDate(r1) && SortedByDate(r2) && multiset(r1) == multiset(r2) && r1 != []
    ensures r2 != [] && r1[0].sentDate == r2[0].sentDate
  {
    assert r1[0] in multiset(r2);
    var k :| 0 <= k < |r2| && r2[k] == r1[0];
    assert r2[0] in multiset(r1);
    var j :| 0 <= j < |r1| && r1[j] == r2[0];
  }

  /**
   * If r1's first record sits at position k of r2, all of r2 up to k shares
   * r1's first sentDate, and r1's tail matches r2 without position k, then
   * r1 and r2 match position by position.
   */
  lemma RealignAfterRemoval(r1: seq<ArchivedMessage>, r2: seq<ArchivedMessage>, rest2: seq<ArchivedMessage>, k: nat)
    requires SortedByDate(r2) && k < |r2| && |r1| == |r2| && r1 != []
    requires r2[0].sentDate == r1[0].sentDate == r2[k].sentDate
    requires |rest2| == |r1| - 1
    requires forall a :: 0 <= a < |rest2| ==> rest2[a] == r2[if a < k then a else a + 1]
    requires forall i :: 0 <= i < |rest2| ==> r1[i + 1].sentDate == rest2[i].sentDate
    ensures forall i :: 0 <= i < |r1| ==> r1[i].sentDate == r2[i].sentDate
  {
    forall i | 0 < i < |r1| ensures r1[i].sentDate == r2[i].sentDate {
      assert r1[i].sentDate == rest2[i - 1].sentDate;
      if i <= k {
        assert r2[0].sentDate <= r2[i - 1].sentDate <= r2[i].sentDate <= r2[k].sentDate;
      }
    }
  }

  /** Dropping the first record of an ascending sequence leaves it ascending, minus that record. */
  lemma DropFirst(r: seq<ArchivedMessage>) returns (tail: seq<ArchivedMessage>)
    requires SortedByDate(r) && r != []
    ensures tail == r[1..] && SortedByDate(tail)
    ensures multiset(tail) == multiset(r) - multiset{r[0]}
    ensures forall i :: 0 <= i < |tail| ==> tail[i] == r[i + 1]
  {
    tail := r[1..];
    assert r == [r[0]] + tail;
  }

  /** Two ascending arrangements of the same records agree on the sentDate at every position. */
  lemma {:induction false} SortedArrangementsShareDates(r1: seq<ArchivedMessage>, r2: seq<ArchivedMessage>)
    requires SortedByDate(r1) && SortedByDate(r2) && multiset(r1) == multiset(r2)
    ensures |r1| == |r2|
    ensures forall i :: 0 <= i < |r1| ==> r1[i].sentDate == r2[i].sentDate
    decreases |r1|
  {
    assert |r1| == |multiset(r1)| == |r2|;
    if r1 != [] {
      HeadsShareDate(r1, r2);
      var first := r1[0];
      assert first in multiset(r2);
      var k :| 0 <= k < |r2| && r2[k] == first;
      var rest2 := RemoveAt(r2, k);
      var tail1 := DropFirst(r1);
      SortedArrangementsShareDates(tail1, rest2);
      RealignAfterRemoval(r1, r2, rest2, k);
    }
  }

  /**
   * The query's answer is fixed up to the order of records with equal
   * sentDate: any two answers, with the arguments in either order, hold the
   * same records and the same sentDate at every position.
   */
  lemma ConversationDeterminedUpToTies(records: seq<ArchivedMessage>, jid1: string, jid2: string,
                                       r1: seq<ArchivedMessage>, r2: seq<ArchivedMessage>)
    requires IsConversation(records, jid1, jid2, r1)
    requires IsConversation(records, jid1, jid2, r2) || IsConversation(records, jid2, jid1, r2)
    ensures multiset(r1) == multiset(r2) && |r1| == |r2|
    ensures forall i :: 0 <= i < |r1| ==> r1[i].sentDate == r2[i].sentDate
  {
    if !IsConversation(records, jid1, jid2, r2) {
      ConversationSymmetric(records, jid2, jid1, r2);
    }
    SortedArrangementsShareDates(r1, r2);
  }

  /** Appending one record adds it to the conversations it matches, and changes no other conversation. */
  lemma AppendExtendsConversation(records: seq<ArchivedMessage>, m: ArchivedMessage, jid1: string, jid2: string)
    ensures Between(records + [m], jid1, jid2)
         == Between(records, jid1, jid2) + if Matches(m, jid1, jid2) then [m] else []
  {
  }
}
