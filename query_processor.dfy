/**
 * The multi-shard AND query engine. Each shard is one index file opened as a
 * reader pair: its index maps a word to the word's posting list and its doc
 * table maps a shard-local doc id to a document name. A query is answered
 * shard by shard (intersect the posting lists of every word, sum the
 * matched counts, resolve the doc ids to names) and the shards' answers are
 * concatenated and sorted.
 */
module QueryProcessing {
  import opened Strings

  /** DocID_t: a shard-local document handle. */
  type DocId = nat

  /** A DocIDElementHeader: a document and the number of positions of the word in it. */
  datatype Posting = Posting(docId: DocId, numPositions: int)

  /** One index file as its two readers: word -> postings, doc id -> name. */
  datatype Shard = Shard(index: map<string, seq<Posting>>, docTable: map<DocId, string>)

  datatype QueryResult = QueryResult(documentName: string, rank: int)

  predicate HasDoc(l: seq<Posting>, d: DocId) {
    exists i :: 0 <= i < |l| && l[i].docId == d
  }

  predicate DistinctDocs(l: seq<Posting>) {
    forall i, j :: 0 <= i < j < |l| ==> l[i].docId != l[j].docId
  }

  /** The index of the first posting of document d in l. */
  function FindDoc(l: seq<Posting>, d: DocId): (r: Option<nat>)
    ensures r.None? <==> !HasDoc(l, d)
    ensures r.Some? ==> r.value < |l| && l[r.value].docId == d
    ensures r.Some? ==> forall j :: 0 <= j < r.value ==> l[j].docId != d
  {
    if l == [] then None
    else if l[0].docId == d then Some(0)
    else
      match FindDoc(l[1..], d)
      case None =>
        assert forall i :: 1 <= i < |l| ==> l[i] == l[1..][i - 1];
        None
      case Some(k) => Some(k + 1)
  }

  /** The count of the first posting of document d in l, or 0 when d is absent. */
  function Freq(l: seq<Posting>, d: DocId): int {
    match FindDoc(l, d)
    case None => 0
    case Some(k) => l[k].numPositions
  }

  // ---------------------------------------------------------------------------
  // Intersection of two posting lists

  /** What one element p of the first list contributes to the intersection. */
  function Meet(p: Posting, l2: seq<Posting>): seq<Posting> {
    if HasDoc(l2, p.docId) then [Posting(p.docId, p.numPositions + Freq(l2, p.docId))] else []
  }

  /** Specification of Intersection: the contributions of list1's elements, in list1's order. */
  function Intersect(l1: seq<Posting>, l2: seq<Posting>): (r: seq<Posting>)
    ensures |r| <= |l1|
  {
    if l1 == [] then [] else Intersect(l1[..|l1| - 1], l2) + Meet(l1[|l1| - 1], l2)
  }

  /**
   * Intersection as the source runs it: for each element of list1, scan list2
   * for the first posting of the same document and stop there.
   */
  method Intersection(list1: seq<Posting>, list2: seq<Posting>) returns (result: seq<Posting>)
    ensures result == Intersect(list1, list2)
  {
    result := [];
    var i := 0;
    while i < |list1|
      invariant 0 <= i <= |list1|
      invariant result == Intersect(list1[..i], list2)
    {
      var j := 0;
      while j < |list2| && list2[j].docId != list1[i].docId
        invariant 0 <= j <= |list2|
        invariant forall k :: 0 <= k < j ==> list2[k].docId != list1[i].docId
      {
        j := j + 1;
      }
      if j < |list2| {
        result := result + [Posting(list1[i].docId, list1[i].numPositions + list2[j].numPositions)];
      }
      assert list1[..i + 1][..i] == list1[..i];
      i := i + 1;
    }
    assert list1[..i] == list1;
  }

  /** Each element of list1 contributes independently: intersection distributes over concatenation. */
  lemma {:induction false} IntersectSplit(a: seq<Posting>, b: seq<Posting>, l2: seq<Posting>)
    ensures Intersect(a + b, l2) == Intersect(a, l2) + Intersect(b, l2)
  {
    if b == [] {
      assert a + b == a;
    } else {
      var b' := b[..|b| - 1];
      var last := b[|b| - 1];
      var x, y, m := Intersect(a, l2), Intersect(b', l2), Meet(last, l2);
      assert b == b' + [last];
      calc {
        Intersect(a + b, l2);
        { assert a + b == (a + b') + [last]; }
        Intersect((a + b') + [last], l2);
        { IntersectSnoc(a + b', last, l2); }
        Intersect(a + b', l2) + m;
        { IntersectSplit(a, b', l2); }
        (x + y) + m;
        x + (y + m);
        { IntersectSnoc(b', last, l2); }
        x + Intersect(b, l2);
      }
    }
  }

  lemma {:induction false} IntersectSnoc(l: seq<Posting>, p: Posting, l2: seq<Posting>)
    ensures Intersect(l + [p], l2) == Intersect(l, l2) + Meet(p, l2)
  {
    assert (l + [p])[..|l|] == l;
  }

  /** A document is in the intersection exactly when it is in both lists. */
  lemma {:induction false} IntersectDocs(l1: seq<Posting>, l2: seq<Posting>, d: DocId)
    ensures HasDoc(Intersect(l1, l2), d) <==> HasDoc(l1, d) && HasDoc(l2, d)
  {
    if l1 != [] {
      var init := l1[..|l1| - 1];
      var last := l1[|l1| - 1];
      IntersectDocs(init, l2, d);
      assert l1 == init + [last];
      HasDocAppend(init, last, d);
      var m := Meet(last, l2);
      assert Intersect(l1, l2) == Intersect(init, l2) + m;
      if m == [] {
        assert Intersect(init, l2) + m == Intersect(init, l2);
        assert !(last.docId == d && HasDoc(l2, d));
      } else {
        HasDocAppend(Intersect(init, l2), m[0], d);
        assert m == [m[0]];
      }
    }
  }

  /**
   * Every entry of the intersection is some element of list1 with its count
   * raised by the count of the FIRST posting of the same document in list2.
   */
  lemma {:induction false} IntersectEntries(l1: seq<Posting>, l2: seq<Posting>)
    ensures forall p :: p in Intersect(l1, l2) ==>
      HasDoc(l2, p.docId) &&
      exists i :: 0 <= i < |l1| && l1[i].docId == p.docId && p.numPositions == l1[i].numPositions + Freq(l2, p.docId)
  {
    if l1 != [] {
      var init := l1[..|l1| - 1];
      IntersectEntries(init, l2);
      forall p | p in Intersect(l1, l2)
        ensures HasDoc(l2, p.docId)
        ensures exists i :: 0 <= i < |l1| && l1[i].docId == p.docId && p.numPositions == l1[i].numPositions + Freq(l2, p.docId)
      {
        if p in Intersect(init, l2) {
          var i :| 0 <= i < |init| && init[i].docId == p.docId && p.numPositions == init[i].numPositions + Freq(l2, p.docId);
          assert l1[i] == init[i];
        } else {
          assert p in Meet(l1[|l1| - 1], l2);
        }
      }
    }
  }

  /** Nothing intersects an empty running list. */
  lemma {:induction false} IntersectEmpty(l1: seq<Posting>)
    ensures Intersect(l1, []) == []
  {
    if l1 != [] {
      IntersectEmpty(l1[..|l1| - 1]);
    }
  }

  /** A later duplicate of a document already in list2 is ignored. */
  lemma {:induction false} IntersectIgnoresLaterDuplicate(l1: seq<Posting>, l2: seq<Posting>, q: Posting)
    requires HasDoc(l2, q.docId)
    ensures Intersect(l1, l2 + [q]) == Intersect(l1, l2)
  {
    if l1 != [] {
      IntersectIgnoresLaterDuplicate(l1[..|l1| - 1], l2, q);
      var last := l1[|l1| - 1];
      assert Meet(last, l2 + [q]) == Meet(last, l2) by {
        var d := last.docId;
        FindDocAppend(l2, q, d);
        HasDocAppend(l2, q, d);
      }
    }
  }

  lemma {:induction false} HasDocAppend(l: seq<Posting>, q: Posting, d: DocId)
    ensures HasDoc(l + [q], d) <==> HasDoc(l, d) || q.docId == d
  {
    if HasDoc(l, d) {
      var i :| 0 <= i < |l| && l[i].docId == d;
      assert (l + [q])[i].docId == d;
    }
    if q.docId == d {
      assert (l + [q])[|l|].docId == d;
    }
    if HasDoc(l + [q], d) {
      var i :| 0 <= i < |l + [q]| && (l + [q])[i].docId == d;
      if i < |l| {
        assert l[i].docId == d;
      }
    }
  }

  lemma {:induction false} FindDocAppend(l: seq<Posting>, q: Posting, d: DocId)
    ensures HasDoc(l, d) ==> FindDoc(l + [q], d) == FindDoc(l, d)
  {
    if HasDoc(l, d) {
      var r := FindDoc(l + [q], d);
      var k := FindDoc(l, d).value;
      assert (l + [q])[k].docId == d;
      assert r.Some?;
      assert r.value == k;
    }
  }

  /** A duplicate-free first list gives a duplicate-free intersection. */
  lemma {:induction false} IntersectDistinct(l1: seq<Posting>, l2: seq<Posting>)
    requires DistinctDocs(l1)
    ensures DistinctDocs(Intersect(l1, l2))
  {
    if l1 != [] {
      var init := l1[..|l1| - 1];
      var last := l1[|l1| - 1];
      IntersectDistinct(init, l2);
      var a := Intersect(init, l2);
      IntersectDocs(init, l2, last.docId);
      assert forall i :: 0 <= i < |init| ==> init[i] == l1[i];
      assert !HasDoc(init, last.docId);
      var r := Intersect(l1, l2);
      forall i, j | 0 <= i < j < |r| ensures r[i].docId != r[j].docId {
        if j >= |a| {
          assert r[j].docId == last.docId;
          assert r[i] == a[i];
        }
      }
    }
  }

  // ---------------------------------------------------------------------------
  // Intersection over all the words of a query, within one shard

  /**
   * The running match list narrowed by the remaining words: a word missing
   * from the index empties it, any other word intersects its postings with it.
   */
  function Narrow(acc: seq<Posting>, rest: seq<string>, index: map<string, seq<Posting>>): seq<Posting>
    decreases |rest|
  {
    if rest == [] then acc
    else if rest[0] !in index then []
    else Narrow(Intersect(index[rest[0]], acc), rest[1..], index)
  }

  /** Specification of MultiTermIntersection. */
  function ShardMatches(query: seq<string>, index: map<string, seq<Posting>>): seq<Posting>
    requires |query| > 0
  {
    if query[0] !in index then [] else Narrow(index[query[0]], query[1..], index)
  }

  /** Once the running match list is empty, no later word can refill it. */
  lemma {:induction false} NarrowEmpty(rest: seq<string>, index: map<string, seq<Posting>>)
    ensures Narrow([], rest, index) == []
    decreases |rest|
  {
    if rest != [] && rest[0] in index {
      IntersectEmpty(index[rest[0]]);
      NarrowEmpty(rest[1..], index);
    }
  }

  /**
   * MultiTermIntersection as the source runs it: start from the first word's
   * postings, intersect with each later word's, clear and stop at a missing
   * word, stop early once nothing is left.
   */
  method MultiTermIntersection(query: seq<string>, index: map<string, seq<Posting>>) returns (matching: seq<Posting>)
    requires |query| > 0
    ensures matching == ShardMatches(query, index)
  {
    if query[0] !in index {
      return [];
    }
    matching := index[query[0]];
    var j := 1;
    while j < |query|
      invariant 1 <= j <= |query|
      invariant Narrow(matching, query[j..], index) == ShardMatches(query, index)
    {
      assert query[j..][0] == query[j] && query[j..][1..] == query[j + 1..];
      if query[j] !in index {
        matching := [];
        break;
      }
      matching := Intersection(index[query[j]], matching);
      if matching == [] {
        NarrowEmpty(query[j + 1..], index);
        break;
      }
      j := j + 1;
    }
  }

  /** Every word of the list is in the index and its postings mention document d. */
  predicate AllContain(terms: seq<string>, index: map<string, seq<Posting>>, d: DocId) {
    forall k :: 0 <= k < |terms| ==> terms[k] in index && HasDoc(index[terms[k]], d)
  }

  lemma {:induction false} NarrowDocs(acc: seq<Posting>, rest: seq<string>, index: map<string, seq<Posting>>, d: DocId)
    ensures HasDoc(Narrow(acc, rest, index), d) <==> HasDoc(acc, d) && AllContain(rest, index, d)
    decreases |rest|
  {
    if rest != [] {
      if rest[0] !in index {
        assert !AllContain(rest, index, d);
      } else {
        var next := Intersect(index[rest[0]], acc);
        NarrowDocs(next, rest[1..], index, d);
        IntersectDocs(index[rest[0]], acc, d);
        assert AllContain(rest, index, d) <==> HasDoc(index[rest[0]], d) && AllContain(rest[1..], index, d) by {
          if HasDoc(index[rest[0]], d) && AllContain(rest[1..], index, d) {
            forall k | 0 <= k < |rest| ensures rest[k] in index && HasDoc(index[rest[k]], d) {
              if k > 0 {
                assert rest[k] == rest[1..][k - 1];
              }
            }
          }
          if AllContain(rest, index, d) {
            forall k | 0 <= k < |rest[1..]| ensures rest[1..][k] in index && HasDoc(index[rest[1..][k]], d) {
              assert rest[1..][k] == rest[k + 1];
            }
          }
        }
      }
    }
  }

  /** A document matches in a shard exactly when every query word's postings mention it. */
  lemma {:induction false} ShardMatchesDocs(query: seq<string>, index: map<string, seq<Posting>>, d: DocId)
    requires |query| > 0
    ensures HasDoc(ShardMatches(query, index), d) <==> AllContain(query, index, d)
  {
    if query[0] in index {
      NarrowDocs(index[query[0]], query[1..], index, d);
      if AllContain(query[1..], index, d) && HasDoc(index[query[0]], d) {
        forall k | 0 <= k < |query| ensures query[k] in index && HasDoc(index[query[k]], d) {
          if k > 0 {
            assert query[k] == query[1..][k - 1];
          }
        }
      }
      if AllContain(query, index, d) {
        forall k | 0 <= k < |query[1..]| ensures query[1..][k] in index && HasDoc(index[query[1..][k]], d) {
          assert query[1..][k] == query[k + 1];
        }
      }
    } else {
      assert !AllContain(query, index, d);
    }
  }

  /** A single query word missing from a shard's index empties the shard's matches. */
  lemma {:induction false} MissingWordEmptiesShard(query: seq<string>, index: map<string, seq<Posting>>, k: nat)
    requires k < |query| && query[k] !in index
    ensures ShardMatches(query, index) == []
  {
    var r := ShardMatches(query, index);
    forall d: DocId ensures !HasDoc(r, d) {
      ShardMatchesDocs(query, index, d);
    }
    assert r != [] ==> HasDoc(r, r[0].docId);
  }

  /** The rank-so-far of document d after the given words: one first-posting count per word. */
  function SumFreq(terms: seq<string>, index: map<string, seq<Posting>>, d: DocId): int {
    if terms == [] then 0
    else
      var last := terms[|terms| - 1];
      SumFreq(terms[..|terms| - 1], index, d) + (if last in index then Freq(index[last], d) else 0)
  }

  predicate DistinctPostings(terms: seq<string>, index: map<string, seq<Posting>>) {
    forall k :: 0 <= k < |terms| && terms[k] in index ==> DistinctDocs(index[terms[k]])
  }

  /** One intersection step adds the new word's count to every surviving document's rank. */
  lemma {:induction false} RankStep(acc: seq<Posting>, done: seq<string>, t: string, index: map<string, seq<Posting>>)
    requires t in index && DistinctDocs(index[t])
    requires forall p :: p in acc ==> p.numPositions == SumFreq(done, index, p.docId)
    ensures forall p :: p in Intersect(index[t], acc) ==> p.numPositions == SumFreq(done + [t], index, p.docId)
  {
    var l1 := index[t];
    IntersectEntries(l1, acc);
    forall p | p in Intersect(l1, acc) ensures p.numPositions == SumFreq(done + [t], index, p.docId) {
      var i :| 0 <= i < |l1| && l1[i].docId == p.docId && p.numPositions == l1[i].numPositions + Freq(acc, p.docId);
      RankEntry(acc, done, t, index, p, i);
    }
  }

  lemma {:induction false} RankEntry(acc: seq<Posting>, done: seq<string>, t: string, index: map<string, seq<Posting>>, p: Posting, i: int)
    requires t in index && DistinctDocs(index[t])
    requires forall q :: q in acc ==> q.numPositions == SumFreq(done, index, q.docId)
    requires 0 <= i < |index[t]| && index[t][i].docId == p.docId && HasDoc(acc, p.docId)
    requires p.numPositions == index[t][i].numPositions + Freq(acc, p.docId)
    ensures p.numPositions == SumFreq(done + [t], index, p.docId)
  {
    var d := p.docId;
    assert Freq(index[t], d) == index[t][i].numPositions by {
      assert FindDoc(index[t], d) == Some(i);
    }
    assert Freq(acc, d) == SumFreq(done, index, d) by {
      var k := FindDoc(acc, d).value;
      assert acc[k] in acc;
    }
    SumFreqAppend(done, t, index, d);
  }

  lemma {:induction false} SumFreqAppend(done: seq<string>, t: string, index: map<string, seq<Posting>>, d: DocId)
    ensures SumFreq(done + [t], index, d) == SumFreq(done, index, d) + (if t in index then Freq(index[t], d) else 0)
  {
    assert (done + [t])[..|done + [t]| - 1] == done;
  }

  lemma {:induction false} NarrowRank(acc: seq<Posting>, done: seq<string>, rest: seq<string>, index: map<string, seq<Posting>>)
    requires DistinctPostings(rest, index)
    requires forall p :: p in acc ==> p.numPositions == SumFreq(done, index, p.docId)
    ensures forall p :: p in Narrow(acc, rest, index) ==> p.numPositions == SumFreq(done + rest, index, p.docId)
    decreases |rest|
  {
    if rest == [] {
      assert done + rest == done;
    } else if rest[0] in index {
      assert DistinctDocs(index[rest[0]]) by {
        assert 0 < |rest| && rest[0] in index;
      }
      RankStep(acc, done, rest[0], index);
      DistinctPostingsTail(rest, index);
      NarrowRank(Intersect(index[rest[0]], acc), done + [rest[0]], rest[1..], index);
      assert done + [rest[0]] + rest[1..] == done + rest;
    }
  }

  lemma {:induction false} DistinctPostingsTail(rest: seq<string>, index: map<string, seq<Posting>>)
    requires rest != [] && DistinctPostings(rest, index)
    ensures DistinctPostings(rest[1..], index)
  {
    forall k | 0 <= k < |rest[1..]| && rest[1..][k] in index ensures DistinctDocs(index[rest[1..][k]]) {
      assert rest[1..][k] == rest[k + 1];
    }
  }

  /**
   * When no query word's posting list repeats a document, each match's rank is
   * the sum, over the query words, of that document's count for the word.
   */
  lemma {:induction false} ShardMatchesRank(query: seq<string>, index: map<string, seq<Posting>>)
    requires |query| > 0
    requires DistinctPostings(query, index)
    ensures forall p :: p in ShardMatches(query, index) ==> p.numPositions == SumFreq(query, index, p.docId)
  {
    if query[0] in index {
      var first := index[query[0]];
      assert DistinctDocs(first) by {
        assert 0 < |query|;
      }
      forall p | p in first ensures p.numPositions == SumFreq([query[0]], index, p.docId) {
        var i :| 0 <= i < |first| && first[i] == p;
        assert FindDoc(first, p.docId) == Some(i);
        assert [query[0]][..0] == [];
      }
      assert DistinctPostings(query[1..], index) by {
        forall k | 0 <= k < |query[1..]| && query[1..][k] in index ensures DistinctDocs(index[query[1..][k]]) {
          assert query[1..][k] == query[k + 1];
        }
      }
      NarrowRank(first, [query[0]], query[1..], index);
      assert [query[0]] + query[1..] == query;
    }
  }

  /** When no query word's posting list repeats a document, neither do the matches. */
  lemma {:induction false} ShardMatchesDistinct(query: seq<string>, index: map<string, seq<Posting>>)
    requires |query| > 0
    requires DistinctPostings(query, index)
    ensures DistinctDocs(ShardMatches(query, index))
  {
    if query[0] in index {
      assert DistinctDocs(index[query[0]]) by {
        assert 0 < |query|;
      }
      NarrowDistinct(index[query[0]], query[1..], index);
    }
  }

  lemma {:induction false} NarrowDistinct(acc: seq<Posting>, rest: seq<string>, index: map<string, seq<Posting>>)
    requires DistinctDocs(acc)
    requires DistinctPostings(rest, index)
    ensures DistinctDocs(Narrow(acc, rest, index))
    decreases |rest|
  {
    if rest != [] && rest[0] in index {
      assert DistinctDocs(index[rest[0]]) by {
        assert 0 < |rest|;
      }
      IntersectDistinct(index[rest[0]], acc);
      assert DistinctPostings(rest[1..], index) by {
        forall k | 0 <= k < |rest[1..]| && rest[1..][k] in index ensures DistinctDocs(index[rest[1..][k]]) {
          assert rest[1..][k] == rest[k + 1];
        }
      }
      NarrowDistinct(Intersect(index[rest[0]], acc), rest[1..], index);
    }
  }

  // ---------------------------------------------------------------------------
  // Resolving doc ids to names

  /** Specification of AddMatchingDocuments: the matches whose doc id has a name, in order. */
  function Named(matching: seq<Posting>, docTable: map<DocId, string>): seq<QueryResult> {
    if matching == [] then []
    else
      var p := matching[|matching| - 1];
      Named(matching[..|matching| - 1], docTable)
        + (if p.docId in docTable then [QueryResult(docTable[p.docId], p.numPositions)] else [])
  }

  /** AddMatchingDocuments only appends to the results it is given. */
  method AddMatchingDocuments(matching: seq<Posting>, docTable: map<DocId, string>, results: seq<QueryResult>)
    returns (updated: seq<QueryResult>)
    ensures updated == results + Named(matching, docTable)
  {
    updated := results;
    var i := 0;
    while i < |matching|
      invariant 0 <= i <= |matching|
      invariant updated == results + Named(matching[..i], docTable)
    {
      var doc := matching[i];
      if doc.docId in docTable {
        updated := updated + [QueryResult(docTable[doc.docId], doc.numPositions)];
      }
      assert matching[..i + 1][..i] == matching[..i];
      i := i + 1;
    }
    assert matching[..i] == matching;
  }

  /** A result is named exactly when some match has a name for its doc id; its rank is the match's count. */
  lemma {:induction false} NamedMembers(matching: seq<Posting>, docTable: map<DocId, string>, r: QueryResult)
    ensures r in Named(matching, docTable) <==>
      exists p :: p in matching && p.docId in docTable && r == QueryResult(docTable[p.docId], p.numPositions)
  {
    if matching != [] {
      var init := matching[..|matching| - 1];
      var p := matching[|matching| - 1];
      NamedMembers(init, docTable, r);
      if r in Named(init, docTable) {
        var q :| q in init && q.docId in docTable && r == QueryResult(docTable[q.docId], q.numPositions);
        assert q in matching;
      }
      if exists q :: q in matching && q.docId in docTable && r == QueryResult(docTable[q.docId], q.numPositions) {
        var q :| q in matching && q.docId in docTable && r == QueryResult(docTable[q.docId], q.numPositions);
        if q != p {
          var i :| 0 <= i < |matching| && matching[i] == q;
          assert i < |matching| - 1;
          assert init[i] == q;
        }
      }
    }
  }

  // ---------------------------------------------------------------------------
  // Merging the shards and sorting

  /** The results of every shard, concatenated in shard order. */
  function Gathered(query: seq<string>, shards: seq<Shard>): seq<QueryResult>
    requires |query| > 0
  {
    if shards == [] then []
    else
      var s := shards[|shards| - 1];
      Gathered(query, shards[..|shards| - 1]) + Named(ShardMatches(query, s.index), s.docTable)
  }

  /** Result r is what shard i makes of its match p: p's doc id has a name there and r carries p's count. */
  predicate FromShard(query: seq<string>, shards: seq<Shard>, i: int, p: Posting, r: QueryResult)
    requires |query| > 0
  {
    0 <= i < |shards| && p in ShardMatches(query, shards[i].index)
    && p.docId in shards[i].docTable && r == QueryResult(shards[i].docTable[p.docId], p.numPositions)
  }

  /** A merged result comes from some shard: a match there whose doc id that shard can name. */
  lemma {:induction false} GatheredMembers(query: seq<string>, shards: seq<Shard>, r: QueryResult)
    requires |query| > 0
    ensures r in Gathered(query, shards) <==> exists i, p :: FromShard(query, shards, i, p, r)
  {
    if shards != [] {
      var init := shards[..|shards| - 1];
      var s := shards[|shards| - 1];
      GatheredMembers(query, init, r);
      NamedMembers(ShardMatches(query, s.index), s.docTable, r);
      if r in Gathered(query, init) {
        var i, p :| FromShard(query, init, i, p, r);
        assert shards[i] == init[i];
        assert FromShard(query, shards, i, p, r);
      }
      if r in Named(ShardMatches(query, s.index), s.docTable) {
        var p :| p in ShardMatches(query, s.index) && p.docId in s.docTable && r == QueryResult(s.docTable[p.docId], p.numPositions);
        assert FromShard(query, shards, |shards| - 1, p, r);
      }
      if exists i, p :: FromShard(query, shards, i, p, r) {
        var i, p :| FromShard(query, shards, i, p, r);
        if i < |shards| - 1 {
          assert init[i] == shards[i];
          assert FromShard(query, init, i, p, r);
        }
      }
    }
  }

  /** std::string's operator<=: lexicographic by character code. */
  predicate StrLe(a: string, b: string) {
    a == [] || (b != [] && (a[0] < b[0] || (a[0] == b[0] && StrLe(a[1..], b[1..]))))
  }

  /** The order the results are sorted into: by document name, then by rank. */
  predicate ResultLe(x: QueryResult, y: QueryResult) {
    if x.documentName == y.documentName then x.rank <= y.rank else StrLe(x.documentName, y.documentName)
  }

  lemma {:induction false} StrLeTotal(a: string, b: string)
    ensures StrLe(a, b) || StrLe(b, a)
  {
    if a != [] && b != [] && a[0] == b[0] {
      StrLeTotal(a[1..], b[1..]);
    }
  }

  lemma {:induction false} StrLeAntisymmetric(a: string, b: string)
    requires StrLe(a, b) && StrLe(b, a)
    ensures a == b
  {
    if a != [] {
      StrLeAntisymmetric(a[1..], b[1..]);
      assert a == [a[0]] + a[1..] && b == [b[0]] + b[1..];
    }
  }

  lemma {:induction false} StrLeTransitive(a: string, b: string, c: string)
    requires StrLe(a, b) && StrLe(b, c)
    ensures StrLe(a, c)
  {
    if a != [] && a[0] == b[0] && b[0] == c[0] {
      StrLeTransitive(a[1..], b[1..], c[1..]);
    }
  }

  lemma {:induction false} ResultLeTotal(x: QueryResult, y: QueryResult)
    ensures ResultLe(x, y) || ResultLe(y, x)
  {
    StrLeTotal(x.documentName, y.documentName);
  }

  lemma {:induction false} ResultLeAntisymmetric(x: QueryResult, y: QueryResult)
    requires ResultLe(x, y) && ResultLe(y, x)
    ensures x == y
  {
    if x.documentName != y.documentName {
      StrLeAntisymmetric(x.documentName, y.documentName);
    }
  }

  lemma {:induction false} ResultLeTransitive(x: QueryResult, y: QueryResult, z: QueryResult)
    requires ResultLe(x, y) && ResultLe(y, z)
    ensures ResultLe(x, z)
  {
    var a, b, c := x.documentName, y.documentName, z.documentName;
    if a != b && b != c {
      StrLeTransitive(a, b, c);
      if a == c {
        StrLeAntisymmetric(a, b);
      }
    } else if a == b && b != c {
    } else if a != b && b == c {
    }
  }

  predicate Sorted(s: seq<QueryResult>) {
    forall i, j :: 0 <= i < j < |s| ==> ResultLe(s[i], s[j])
  }

  /** Inserting x into a sorted list. */
  function Insert(x: QueryResult, s: seq<QueryResult>): seq<QueryResult> {
    if s == [] then [x]
    else if ResultLe(x, s[0]) then [x] + s
    else [s[0]] + Insert(x, s[1..])
  }

  /** The sort of the final results (std::sort under the results' order), as an insertion sort. */
  function SortResults(s: seq<QueryResult>): seq<QueryResult> {
    if s == [] then [] else Insert(s[0], SortResults(s[1..]))
  }

  lemma {:induction false} InsertPermutes(x: QueryResult, s: seq<QueryResult>)
    ensures multiset(Insert(x, s)) == multiset(s) + multiset{x}
  {
    if s != [] && !ResultLe(x, s[0]) {
      InsertPermutes(x, s[1..]);
      assert s == [s[0]] + s[1..];
    }
  }

  lemma {:induction false} InsertSorted(x: QueryResult, s: seq<QueryResult>)
    requires Sorted(s)
    ensures Sorted(Insert(x, s))
  {
    if s == [] {
    } else if ResultLe(x, s[0]) {
      forall y | y in s ensures ResultLe(x, y) {
        SortedHeadLeast(s, y);
        ResultLeTransitive(x, s[0], y);
      }
      ConsSorted(x, s);
    } else {
      ResultLeTotal(x, s[0]);
      SortedTail(s);
      InsertSorted(x, s[1..]);
      InsertPermutes(x, s[1..]);
      var t := Insert(x, s[1..]);
      forall y | y in t ensures ResultLe(s[0], y) {
        assert y in multiset(t);
        if y != x {
          assert y in multiset(s[1..]);
          assert y in s;
          SortedHeadLeast(s, y);
        }
      }
      ConsSorted(s[0], t);
    }
  }

  /** A sorted list stays sorted under a new head no greater than any of its elements. */
  lemma {:induction false} ConsSorted(h: QueryResult, t: seq<QueryResult>)
    requires Sorted(t)
    requires forall y :: y in t ==> ResultLe(h, y)
    ensures Sorted([h] + t)
  {
    var r := [h] + t;
    forall i, j | 0 <= i < j < |r| ensures ResultLe(r[i], r[j]) {
      assert r[j] == t[j - 1];
      if i > 0 {
        assert r[i] == t[i - 1];
      }
    }
  }

  /** The sort orders the results and keeps exactly the same results. */
  lemma {:induction false} SortResultsSpec(s: seq<QueryResult>)
    ensures Sorted(SortResults(s))
    ensures multiset(SortResults(s)) == multiset(s)
  {
    if s != [] {
      SortResultsSpec(s[1..]);
      InsertSorted(s[0], SortResults(s[1..]));
      InsertPermutes(s[0], SortResults(s[1..]));
      assert s == [s[0]] + s[1..];
    }
  }

  /**
   * There is only one sorted arrangement of a collection of results: the
   * output depends on which results there are, not on the order in which the
   * shards produced them.
   */
  lemma {:induction false} SortedUnique(a: seq<QueryResult>, b: seq<QueryResult>)
    requires Sorted(a) && Sorted(b) && multiset(a) == multiset(b)
    ensures a == b
  {
    if a == [] {
      assert |b| == |multiset(b)| == 0;
    } else {
      assert b != [] by {
        assert |b| == |multiset(b)| == |multiset(a)| == |a|;
      }
      assert a[0] == b[0] by {
        assert a[0] in multiset(b) && b[0] in multiset(a);
        SortedHeadLeast(a, b[0]);
        SortedHeadLeast(b, a[0]);
        ResultLeAntisymmetric(a[0], b[0]);
      }
      SortedTail(a);
      SortedTail(b);
      SortedUnique(a[1..], b[1..]);
      assert a == [a[0]] + a[1..] && b == [b[0]] + b[1..];
    }
  }

  lemma {:induction false} SortedTail(a: seq<QueryResult>)
    requires Sorted(a) && a != []
    ensures Sorted(a[1..])
    ensures multiset(a[1..]) == multiset(a) - multiset{a[0]}
  {
    assert a == [a[0]] + a[1..];
  }

  lemma {:induction false} SortedHeadLeast(a: seq<QueryResult>, x: QueryResult)
    requires Sorted(a) && x in a
    ensures ResultLe(a[0], x)
  {
    var i :| 0 <= i < |a| && a[i] == x;
    if i > 0 {
      assert ResultLe(a[0], a[i]);
    }
  }

  /** The query engine: one reader pair per index file, opened at construction and only read afterwards. */
  class QueryProcessor {
    const shards: seq<Shard>

    constructor (shards: seq<Shard>)
      requires |shards| > 0
      ensures this.shards == shards
    {
      this.shards := shards;
    }

    /**
     * Answers a non-empty query: every shard's named matches, concatenated and
     * sorted. An empty query is a fatal caller error in the source.
     */
    method ProcessQuery(query: seq<string>) returns (finalResult: seq<QueryResult>)
      requires |query| > 0
      ensures finalResult == SortResults(Gathered(query, shards))
      ensures Sorted(finalResult) && multiset(finalResult) == multiset(Gathered(query, shards))
    {
      finalResult := [];
      var i := 0;
      while i < |shards|
        invariant 0 <= i <= |shards|
        invariant finalResult == Gathered(query, shards[..i])
      {
        var matching := MultiTermIntersection(query, shards[i].index);
        finalResult := AddMatchingDocuments(matching, shards[i].docTable, finalResult);
        assert shards[..i + 1][..i] == shards[..i];
        i := i + 1;
      }
      assert shards[..i] == shards;
      SortResultsSpec(finalResult);
      finalResult := SortResults(finalResult);
    }
  }

  /**
   * What ProcessQuery returns, in the system's terms: exactly the named
   * matches of all shards, each document of a shard matching only when every
   * query word's postings mention it, sorted.
   */
  lemma {:induction false} ProcessQueryMembers(query: seq<string>, shards: seq<Shard>, r: QueryResult)
    requires |query| > 0
    ensures Sorted(SortResults(Gathered(query, shards)))
    ensures r in SortResults(Gathered(query, shards)) <==> exists i, p :: FromShard(query, shards, i, p, r)
    ensures r in SortResults(Gathered(query, shards)) ==>
      exists i, d :: 0 <= i < |shards| && d in shards[i].docTable && r.documentName == shards[i].docTable[d]
        && AllContain(query, shards[i].index, d)
  {
    SortResultsSpec(Gathered(query, shards));
    assert r in SortResults(Gathered(query, shards)) <==> r in multiset(Gathered(query, shards));
    GatheredMembers(query, shards, r);
    if r in SortResults(Gathered(query, shards)) {
      var i, p :| FromShard(query, shards, i, p, r);
      ShardMatchesDocs(query, shards[i].index, p.docId);
      var k :| 0 <= k < |ShardMatches(query, shards[i].index)| && ShardMatches(query, shards[i].index)[k] == p;
      assert HasDoc(ShardMatches(query, shards[i].index), p.docId);
    }
  }
}
