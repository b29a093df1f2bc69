/**
 * The local query shell: a typed line is lowercased in place, split into
 * words the way stream extraction (`>>`) splits them, and handed to the query
 * engine; the answer is printed one line per result.
 */
module FileSearchShell {
  import opened Strings
  import opened QueryProcessing

  /** ToLowerCase: rewrites the line in place, one character at a time. */
  method ToLowerCase(input: array<char>)
    modifies input
    ensures input[..] == Lower(old(input[..]))
  {
    ghost var original := input[..];
    LowerPointwise(original);
    var i := 0;
    while i < input.Length
      invariant 0 <= i <= input.Length
      invariant forall k :: 0 <= k < i ==> input[k] == LowerChar(original[k])
      invariant forall k :: i <= k < input.Length ==> input[k] == original[k]
    {
      input[i] := LowerChar(input[i]);
      i := i + 1;
    }
  }

  /** Length of the run of non-space characters at the start of s. */
  function WordLen(s: string): (n: nat)
    ensures n <= |s|
    ensures forall i :: 0 <= i < n ==> !IsSpace(s[i])
    ensures n == |s| || IsSpace(s[n])
  {
    if s == [] || IsSpace(s[0]) then 0 else 1 + WordLen(s[1..])
  }

  /** The words stream extraction reads from a line: maximal runs of non-space characters. */
  function Words(s: string): seq<string>
    decreases |s|
  {
    if s == [] then []
    else if IsSpace(s[0]) then Words(s[1..])
    else
      var n := WordLen(s);
      [s[..n]] + Words(s[n..])
  }

  /** ParseQuery: extracts words from the line until the stream runs dry. */
  method ParseQuery(userQuery: string) returns (query: seq<string>)
    ensures query == Words(userQuery)
  {
    query := [];
    var i := 0;
    while true
      invariant 0 <= i <= |userQuery|
      invariant query + Words(userQuery[i..]) == Words(userQuery)
      decreases |userQuery| - i
    {
      // Extraction first skips white space ...
      while i < |userQuery| && IsSpace(userQuery[i])
        invariant 0 <= i <= |userQuery|
        invariant query + Words(userQuery[i..]) == Words(userQuery)
      {
        WordsSkipSpace(userQuery, i);
        i := i + 1;
      }
      if i == |userQuery| {
        break;
      }
      // ... then reads up to the next white space.
      var j := i;
      while j < |userQuery| && !IsSpace(userQuery[j])
        invariant i <= j <= |userQuery|
        invariant forall k :: i <= k < j ==> !IsSpace(userQuery[k])
      {
        j := j + 1;
      }
      WordsTakeWord(userQuery, i, j);
      query := query + [userQuery[i..j]];
      i := j;
    }
    assert userQuery[i..] == [];
  }

  /** The word at the start of s ends at the first space. */
  lemma {:induction false} WordLenAt(s: string, n: nat)
    requires n <= |s|
    requires forall k :: 0 <= k < n ==> !IsSpace(s[k])
    requires n == |s| || IsSpace(s[n])
    ensures WordLen(s) == n
  {
    if n > 0 {
      WordLenAt(s[1..], n - 1);
    }
  }

  lemma {:induction false} WordAt(s: string, n: nat)
    requires 0 < n <= |s|
    requires forall k :: 0 <= k < n ==> !IsSpace(s[k])
    requires n == |s| || IsSpace(s[n])
    ensures Words(s) == [s[..n]] + Words(s[n..])
  {
    WordLenAt(s, n);
  }

  lemma {:induction false} WordsSkipSpace(s: string, i: nat)
    requires i < |s| && IsSpace(s[i])
    ensures Words(s[i..]) == Words(s[i + 1..])
  {
    assert s[i..][1..] == s[i + 1..];
  }

  lemma {:induction false} WordsTakeWord(s: string, i: nat, j: nat)
    requires i < j <= |s|
    requires forall k :: i <= k < j ==> !IsSpace(s[k])
    requires j == |s| || IsSpace(s[j])
    ensures Words(s[i..]) == [s[i..j]] + Words(s[j..])
  {
    var t := s[i..];
    assert forall k :: 0 <= k < j - i ==> !IsSpace(t[k]) by {
      forall k | 0 <= k < j - i ensures !IsSpace(t[k]) {
        assert t[k] == s[i + k];
      }
    }
    assert j - i == |t| || IsSpace(t[j - i]);
    WordAt(t, j - i);
    assert s[i..][..j - i] == s[i..j];
    assert s[i..][j - i..] == s[j..];
  }

  /** Every word is non-empty and free of white space. */
  lemma {:induction false} WordsWellFormed(s: string)
    ensures forall k :: 0 <= k < |Words(s)| ==> Words(s)[k] != [] && NoSpace(Words(s)[k])
    decreases |s|
  {
    if s != [] {
      if IsSpace(s[0]) {
        WordsWellFormed(s[1..]);
      } else {
        WordsWellFormed(s[WordLen(s)..]);
      }
    }
  }

  /** A line gives no words exactly when it is all white space. */
  lemma {:induction false} WordsEmptyIff(s: string)
    ensures Words(s) == [] <==> AllSpace(s)
    decreases |s|
  {
    if s != [] && IsSpace(s[0]) {
      WordsEmptyIff(s[1..]);
      assert AllSpace(s) <==> AllSpace(s[1..]) by {
        if AllSpace(s[1..]) {
          forall i | 0 <= i < |s| ensures IsSpace(s[i]) {
            if i > 0 {
              assert s[i] == s[1..][i - 1];
            }
          }
        }
      }
    }
  }

  function Concat(words: seq<string>): string {
    if words == [] then [] else words[0] + Concat(words[1..])
  }

  /** The line with its white space removed. */
  function DropSpaces(s: string): string {
    if s == [] then [] else (if IsSpace(s[0]) then [] else [s[0]]) + DropSpaces(s[1..])
  }

  lemma {:induction false} DropSpacesAppend(a: string, b: string)
    ensures DropSpaces(a + b) == DropSpaces(a) + DropSpaces(b)
  {
    if a != [] {
      assert (a + b)[1..] == a[1..] + b;
      DropSpacesAppend(a[1..], b);
    } else {
      assert a + b == b;
    }
  }

  lemma {:induction false} DropSpacesOfWord(w: string)
    requires NoSpace(w)
    ensures DropSpaces(w) == w
  {
    if w != [] {
      DropSpacesOfWord(w[1..]);
    }
  }

  /** The words, run together, are the line's non-space characters in their original order. */
  lemma {:induction false} WordsKeepOrder(s: string)
    ensures Concat(Words(s)) == DropSpaces(s)
    decreases |s|
  {
    if s != [] {
      if IsSpace(s[0]) {
        WordsKeepOrder(s[1..]);
      } else {
        var n := WordLen(s);
        WordsKeepOrder(s[n..]);
        assert s == s[..n] + s[n..];
        DropSpacesAppend(s[..n], s[n..]);
        DropSpacesOfWord(s[..n]);
        assert Words(s)[1..] == Words(s[n..]);
      }
    }
  }

  lemma {:induction false} WordsOfWordThen(w: string, rest: string)
    requires w != [] && NoSpace(w)
    requires rest == [] || IsSpace(rest[0])
    ensures Words(w + rest) == [w] + Words(rest)
  {
    var s := w + rest;
    WordAt(s, |w|);
    assert s[..|w|] == w && s[|w|..] == rest;
  }

  /**
   * Joining well-formed words with single spaces and splitting the result
   * again gives the same words: splitting loses nothing but the white space.
   */
  lemma {:induction false} WordsOfJoin(words: seq<string>)
    requires forall k :: 0 <= k < |words| ==> words[k] != [] && NoSpace(words[k])
    ensures Words(Join(words, ' ')) == words
  {
    if |words| == 1 {
      WordsOfWordThen(words[0], []);
      assert words[0] + [] == words[0];
    } else if |words| > 1 {
      var tail := Join(words[1..], ' ');
      WordsOfJoin(words[1..]);
      assert Join(words, ' ') == words[0] + ([' '] + tail);
      WordsOfWordThen(words[0], [' '] + tail);
      assert ([' '] + tail)[1..] == tail;
    }
  }

  /** The line trimmed, with each remaining run of white space replaced by one space. */
  function Collapse(s: string): string {
    CollapseRuns(Trim(s))
  }

  /** Each run of white space replaced by one space. */
  function CollapseRuns(s: string): string
    decreases |s|
  {
    if s == [] then []
    else if IsSpace(s[0]) then
      assert LeadingSpaces(s) > 0;
      [' '] + CollapseRuns(TrimLeft(s))
    else [s[0]] + CollapseRuns(s[1..])
  }

  /**
   * The words, joined with single spaces, are the line with its white space
   * trimmed and every inner run of it collapsed to one space: the words keep
   * their order and break exactly where the line's white space is.
   */
  lemma {:induction false} WordsJoinCollapse(s: string)
    ensures Join(Words(s), ' ') == Collapse(s)
  {
    WordsOfTrim(s);
    TrimSpec(s);
    TrimmedWordsJoin(Trim(s));
  }

  /** Trimming the line changes none of its words. */
  lemma {:induction false} WordsOfTrim(s: string)
    ensures Words(s) == Words(Trim(s))
  {
    var t := TrimLeft(s);
    WordsOfTrimLeft(s);
    var n := TrailingSpaces(t);
    assert t == TrimRight(t) + t[|t| - n..];
    WordsTrailingSpace(TrimRight(t), t[|t| - n..]);
  }

  lemma {:induction false} WordsOfTrimLeft(s: string)
    ensures Words(s) == Words(TrimLeft(s))
    decreases |s|
  {
    if s != [] && IsSpace(s[0]) {
      WordsOfTrimLeft(s[1..]);
      var m := LeadingSpaces(s[1..]);
      assert s[m + 1..] == s[1..][m..];
    }
  }

  lemma {:induction false} WordsTrailingSpace(a: string, b: string)
    requires AllSpace(b)
    ensures Words(a + b) == Words(a)
    decreases |a|
  {
    var s := a + b;
    if a == [] {
      assert s == b;
      WordsEmptyIff(b);
    } else if IsSpace(a[0]) {
      assert s[1..] == a[1..] + b;
      WordsTrailingSpace(a[1..], b);
    } else {
      var n := WordLen(a);
      assert forall k :: 0 <= k < n ==> !IsSpace(s[k]) by {
        forall k | 0 <= k < n ensures !IsSpace(s[k]) {
          assert s[k] == a[k];
        }
      }
      if n < |a| {
        assert s[n] == a[n];
      } else if b != [] {
        assert s[n] == b[0];
      }
      WordLenAt(s, n);
      assert s[..n] == a[..n] && s[n..] == a[n..] + b;
      WordsTrailingSpace(a[n..], b);
    }
  }

  /** Collapsing runs copies a space-free prefix unchanged. */
  lemma {:induction false} CollapseRunsWord(w: string, r: string)
    requires NoSpace(w)
    ensures CollapseRuns(w + r) == w + CollapseRuns(r)
    decreases |w|
  {
    if w == [] {
      assert w + r == r;
    } else {
      assert (w + r)[1..] == w[1..] + r;
      CollapseRunsWord(w[1..], r);
      assert [w[0]] + (w[1..] + CollapseRuns(r)) == w + CollapseRuns(r);
    }
  }

  lemma {:induction false} TrimmedWordsJoin(t: string)
    requires t == [] || (!IsSpace(t[0]) && !IsSpace(t[|t| - 1]))
    ensures Join(Words(t), ' ') == CollapseRuns(t)
    decreases |t|
  {
    if t != [] {
      var n := WordLen(t);
      var word := t[..n];
      if n == |t| {
        SingleWordJoin(t);
      } else {
        var u := AfterFirstWord(t, n);
        TrimmedWordsJoin(u);
        JoinCons(word, Words(u), ' ');
        assert word + [' '] + CollapseRuns(u) == word + ([' '] + CollapseRuns(u));
      }
    }
  }

  /** A line with no white space is one word, and collapsing leaves it alone. */
  lemma {:induction false} SingleWordJoin(t: string)
    requires t != [] && WordLen(t) == |t|
    ensures Join(Words(t), ' ') == CollapseRuns(t)
  {
    WordAt(t, |t|);
    assert t[..|t|] == t && t[|t|..] == [];
    CollapseRunsWord(t, []);
    assert t + [] == t;
  }

  /**
   * In a trimmed line with more than one word, what follows the first word
   * is a blank run and a shorter trimmed line u: the words of the line are
   * the first word and the words of u, and collapsing the line collapses
   * the run to one blank in front of u.
   */
  lemma {:induction false} AfterFirstWord(t: string, n: nat) returns (u: string)
    requires t != [] && !IsSpace(t[0]) && !IsSpace(t[|t| - 1])
    requires n == WordLen(t) && n < |t|
    ensures |u| < |t| && u != [] && !IsSpace(u[0]) && !IsSpace(u[|u| - 1])
    ensures Words(t) == [t[..n]] + Words(u) && Words(u) != []
    ensures CollapseRuns(t) == t[..n] + ([' '] + CollapseRuns(u))
  {
    var word := t[..n];
    var r := t[n..];
    u := TrimLeft(r);
    var m := LeadingSpaces(r);
    assert r[|r| - 1] == t[|t| - 1];
    assert m < |r|;
    assert u[|u| - 1] == t[|t| - 1];
    WordAt(t, n);
    WordsOfTrimLeft(r);
    WordsEmptyIff(u);
    assert !AllSpace(u);
    assert t == word + r;
    CollapseRunsWord(word, r);
  }

  // ---------------------------------------------------------------------------
  // Handing the words to the engine and printing the answer

  const NoResultsLine: string := " [no results]"

  /** PrintResult: the document name and, in parentheses, its rank. */
  function ResultLine(r: QueryResult): string {
    " " + r.documentName + " (" + IntToString(r.rank) + ")"
  }

  /** What one query line leads to: the engine's fatal error, or the printed lines. */
  datatype ShellOutcome = Aborted | Printed(lines: seq<string>)

  /**
   * The printed answer to a query: one line per result, in the engine's
   * order, or the no-results line when there are none.
   */
  predicate Displays(results: seq<QueryResult>, lines: seq<string>) {
    (results == [] ==> lines == [NoResultsLine]) &&
    (results != [] ==>
       |lines| == |results| && forall i :: 0 <= i < |results| ==> lines[i] == ResultLine(results[i]))
  }

  /**
   * ProcessAndDisplayQueryResults: an empty word list fails the engine's
   * precondition (the process aborts); otherwise the engine's answer is
   * displayed.
   */
  method ProcessAndDisplayQueryResults(processor: QueryProcessor, query: seq<string>) returns (outcome: ShellOutcome)
    ensures outcome.Aborted? <==> query == []
    ensures outcome.Printed? ==> query != [] && Displays(SortResults(Gathered(query, processor.shards)), outcome.lines)
  {
    if query == [] {
      return Aborted;
    }
    var queryRes := processor.ProcessQuery(query);
    var lines := DisplayResults(queryRes);
    return Printed(lines);
  }

  /** The printing half of ProcessAndDisplayQueryResults. */
  method DisplayResults(queryRes: seq<QueryResult>) returns (lines: seq<string>)
    ensures Displays(queryRes, lines)
  {
    if queryRes == [] {
      return [NoResultsLine];
    }
    lines := [];
    var i := 0;
    while i < |queryRes|
      invariant 0 <= i <= |queryRes|
      invariant |lines| == i
      invariant forall k :: 0 <= k < i ==> lines[k] == ResultLine(queryRes[k])
    {
      lines := lines + [ResultLine(queryRes[i])];
      i := i + 1;
    }
  }

  /**
   * One turn of the shell: the typed line is lowercased, split into words and
   * answered. Exactly the lines that are all white space abort.
   */
  method HandleQueryLine(processor: QueryProcessor, line: string) returns (outcome: ShellOutcome)
    ensures outcome.Aborted? <==> AllSpace(line)
    ensures outcome.Printed? ==>
      Words(Lower(line)) != [] &&
      Displays(SortResults(Gathered(Words(Lower(line)), processor.shards)), outcome.lines)
  {
    var buffer := new char[|line|](i requires 0 <= i < |line| => line[i]);
    assert buffer[..] == line;
    ToLowerCase(buffer);
    var query := ParseQuery(buffer[..]);
    LowerKeepsSpaces(line);
    WordsEmptyIff(Lower(line));
    assert AllSpace(Lower(line)) <==> AllSpace(line);
    outcome := ProcessAndDisplayQueryResults(processor, query);
  }
}
