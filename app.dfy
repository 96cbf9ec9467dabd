/**
 * The retrieval-augmented answer of the web service (app.py, `answer_question`):
 * the retrieved chunks are ordered by distance, a prefix of them is kept
 * within a token budget, the kept texts become the context of a fixed prompt,
 * and the language model's reply is returned with the number of chunks used.
 *
 * The embedding of the question and the index query are replaced by their
 * results (the documents and their distances); the language model is an
 * oracle from prompt to reply or error.
 */
module App {
  import opened Wrappers
  import opened Text

  /** A retrieved chunk and its distance to the question (smaller is closer). */
  datatype Hit = Hit(doc: string, dist: int)

  /** `zip(documents, distances)`: pairs up to the shorter of the two lists. */
  function Zip(docs: seq<string>, dists: seq<int>): (hits: seq<Hit>)
    ensures |hits| == if |docs| <= |dists| then |docs| else |dists|
    ensures forall i :: 0 <= i < |hits| ==> hits[i] == Hit(docs[i], dists[i])
  {
    if docs == [] || dists == [] then []
    else [Hit(docs[0], dists[0])] + Zip(docs[1..], dists[1..])
  }

  // ---------------------------------------------------------------------------
  // Ordering by distance
  // ---------------------------------------------------------------------------

  /** `h` placed before the first element that is at least as far. */
  function Insert(h: Hit, sorted: seq<Hit>): seq<Hit> {
    if sorted == [] || h.dist <= sorted[0].dist then [h] + sorted
    else [sorted[0]] + Insert(h, sorted[1..])
  }

  /** `sorted(hits, key=lambda x: x[1])`: an insertion sort, stable like Python's. */
  function SortByDistance(hits: seq<Hit>): seq<Hit> {
    if hits == [] then [] else Insert(hits[0], SortByDistance(hits[1..]))
  }

  predicate SortedByDistance(s: seq<Hit>) {
    forall i, j :: 0 <= i < j < |s| ==> s[i].dist <= s[j].dist
  }

  /** The hits at distance `d`, in order. */
  function AtDistance(s: seq<Hit>, d: int): seq<Hit> {
    if s == [] then []
    else (if s[0].dist == d then [s[0]] else []) + AtDistance(s[1..], d)
  }

  lemma {:induction false} InsertPermutes(h: Hit, s: seq<Hit>)
    ensures multiset(Insert(h, s)) == multiset(s) + multiset{h}
  {
    if s != [] && h.dist > s[0].dist {
      InsertPermutes(h, s[1..]);
      assert s == [s[0]] + s[1..];
    }
  }

  lemma {:induction false} InsertMembers(h: Hit, s: seq<Hit>)
    ensures forall x :: x in Insert(h, s) <==> x == h || x in s
  {
    if s != [] && h.dist > s[0].dist {
      InsertMembers(h, s[1..]);
      assert s == [s[0]] + s[1..];
    }
  }

  lemma {:induction false} InsertSorted(h: Hit, s: seq<Hit>)
    requires SortedByDistance(s)
    ensures SortedByDistance(Insert(h, s))
  {
    if s != [] && h.dist > s[0].dist {
      var r := Insert(h, s[1..]);
      InsertSorted(h, s[1..]);
      InsertMembers(h, s[1..]);
      forall y | y in s[1..] ensures s[0].dist <= y.dist {
        var k :| 0 <= k < |s[1..]| && s[1..][k] == y;
        assert s[k + 1] == y;
      }
      var t := Insert(h, s);
      assert t == [s[0]] + r;
      forall i, j | 0 <= i < j < |t| ensures t[i].dist <= t[j].dist {
        assert t[j] == r[j - 1];
        if i > 0 {
          assert t[i] == r[i - 1];
        } else {
          assert t[j] in r;
        }
      }
    }
  }

  /** `h` goes before every hit at its own distance, so the hits at each distance keep their order. */
  lemma {:induction false} InsertStable(h: Hit, s: seq<Hit>, d: int)
    ensures AtDistance(Insert(h, s), d) == (if h.dist == d then [h] else []) + AtDistance(s, d)
  {
    if s != [] && h.dist > s[0].dist {
      InsertStable(h, s[1..], d);
      var r := Insert(h, s[1..]);
      var t := Insert(h, s);
      assert t == [s[0]] + r;
      assert t[1..] == r;
    } else if s != [] {
      assert (([h] + s)[1..]) == s;
    }
  }

  /**
   * The sorted hits are the same hits (a permutation), in non-decreasing
   * distance, and hits at equal distance keep their retrieval order.
   */
  lemma {:induction false} SortByDistanceSpec(hits: seq<Hit>)
    ensures SortedByDistance(SortByDistance(hits))
    ensures multiset(SortByDistance(hits)) == multiset(hits)
    ensures forall d :: AtDistance(SortByDistance(hits), d) == AtDistance(hits, d)
  {
    if hits != [] {
      var sortedTail := SortByDistance(hits[1..]);
      SortByDistanceSpec(hits[1..]);
      InsertSorted(hits[0], sortedTail);
      InsertPermutes(hits[0], sortedTail);
      forall d ensures AtDistance(SortByDistance(hits), d) == AtDistance(hits, d) {
        InsertStable(hits[0], sortedTail, d);
      }
      assert hits == [hits[0]] + hits[1..];
    }
  }

  // ---------------------------------------------------------------------------
  // The context budget
  // ---------------------------------------------------------------------------

  const MaxContextTokens: nat := 4000

  /** `len(doc) // 4`: the token estimate of a chunk. */
  function Tokens(doc: string): nat {
    |doc| / 4
  }

  function SumTokens(hits: seq<Hit>): nat {
    if hits == [] then 0 else SumTokens(hits[..|hits| - 1]) + Tokens(hits[|hits| - 1].doc)
  }

  /** The hits the budget loop keeps, given the tokens already spent. */
  function Budgeted(hits: seq<Hit>, spent: nat): seq<Hit> {
    if hits == [] then []
    else if spent + Tokens(hits[0].doc) < MaxContextTokens then [hits[0]] + Budgeted(hits[1..], spent + Tokens(hits[0].doc))
    else []
  }

  /** The hits `answer_question` keeps: starting from nothing spent. */
  function Selected(hits: seq<Hit>): seq<Hit> {
    Budgeted(hits, 0)
  }

  /**
   * The loop over the sorted hits: take each one while the running total
   * plus its tokens stays below the budget, and stop at the first that does not.
   */
  method SelectWithinBudget(sorted: seq<Hit>) returns (selected: seq<Hit>, total: nat)
    ensures selected == Selected(sorted)
    ensures total == SumTokens(selected)
  {
    selected := [];
    total := 0;
    var i := 0;
    while i < |sorted|
      invariant i <= |sorted|
      invariant selected == sorted[..i]
      invariant total == SumTokens(selected)
      invariant Selected(sorted) == selected + Budgeted(sorted[i..], total)
    {
      var docTokens := Tokens(sorted[i].doc);
      BudgetStep(sorted, i, total);
      if total + docTokens < MaxContextTokens {
        KeepStep(sorted, i, selected, total);
        selected := selected + [sorted[i]];
        total := total + docTokens;
      } else {
        break;
      }
      i := i + 1;
    }
  }

  /** Keeping the hit at `i` extends the kept prefix and its token sum, and leaves the rest to the later hits. */
  lemma KeepStep(sorted: seq<Hit>, i: nat, selected: seq<Hit>, total: nat)
    requires i < |sorted| && selected == sorted[..i] && total == SumTokens(selected)
    requires total + Tokens(sorted[i].doc) < MaxContextTokens
    requires Selected(sorted) == selected + Budgeted(sorted[i..], total)
    ensures var t := Tokens(sorted[i].doc);
      sorted[..i + 1] == selected + [sorted[i]] &&
      total + t == SumTokens(selected + [sorted[i]]) &&
      Selected(sorted) == (selected + [sorted[i]]) + Budgeted(sorted[i + 1..], total + t)
  {
    var t := Tokens(sorted[i].doc);
    BudgetStep(sorted, i, total);
    assert (selected + [sorted[i]])[..|selected|] == selected;
    var later := Budgeted(sorted[i + 1..], total + t);
    assert selected + ([sorted[i]] + later) == (selected + [sorted[i]]) + later;
  }

  /** One step of the budget loop: the hit at `i` is kept, followed by what fits after it, or nothing is. */
  lemma BudgetStep(sorted: seq<Hit>, i: nat, total: nat)
    requires i < |sorted|
    ensures var t := Tokens(sorted[i].doc);
      (total + t < MaxContextTokens ==>
        Budgeted(sorted[i..], total) == [sorted[i]] + Budgeted(sorted[i + 1..], total + t)) &&
      (total + t >= MaxContextTokens ==> Budgeted(sorted[i..], total) == [])
  {
    assert sorted[i..][0] == sorted[i] && sorted[i..][1..] == sorted[i + 1..];
  }

  lemma {:induction false} SumTokensAppend(a: seq<Hit>, b: seq<Hit>)
    ensures SumTokens(a + b) == SumTokens(a) + SumTokens(b)
    decreases |b|
  {
    if b != [] {
      var n := |b| - 1;
      assert (a + b)[..|a + b| - 1] == a + b[..n];
      assert (a + b)[|a + b| - 1] == b[n];
      SumTokensAppend(a, b[..n]);
      assert SumTokens(a + b) == SumTokens(a + b[..n]) + Tokens(b[n].doc);
      assert SumTokens(b) == SumTokens(b[..n]) + Tokens(b[n].doc);
    } else {
      assert a + b == a;
    }
  }

  /** The tokens of a non-empty prefix are those of its first hit plus those of the rest. */
  lemma SumTokensHead(hits: seq<Hit>)
    requires hits != []
    ensures forall m :: 1 <= m <= |hits| ==>
      SumTokens(hits[..m]) == Tokens(hits[0].doc) + SumTokens(hits[1..][..m - 1])
  {
    forall m | 1 <= m <= |hits| ensures SumTokens(hits[..m]) == Tokens(hits[0].doc) + SumTokens(hits[1..][..m - 1]) {
      assert hits[..m] == [hits[0]] + hits[1..][..m - 1];
      SumTokensAppend([hits[0]], hits[1..][..m - 1]);
      assert [hits[0]][..0] == [];
    }
  }

  /** From `spent` on, the kept hits are a prefix of the hits and keep the total below the budget. */
  lemma {:induction false} BudgetedPrefix(hits: seq<Hit>, spent: nat)
    ensures var kept := Budgeted(hits, spent);
      |kept| <= |hits| && kept == hits[..|kept|] &&
      (spent < MaxContextTokens ==> spent + SumTokens(kept) < MaxContextTokens)
  {
    if hits != [] {
      var t := Tokens(hits[0].doc);
      if spent + t < MaxContextTokens {
        BudgetedPrefix(hits[1..], spent + t);
        var kept, rest := Budgeted(hits, spent), Budgeted(hits[1..], spent + t);
        assert kept == [hits[0]] + rest;
        assert hits[..|kept|] == [hits[0]] + hits[1..][..|rest|];
        SumTokensAppend([hits[0]], rest);
        assert [hits[0]][..0] == [];
      }
    }
  }

  /** From `spent` on, a prefix of the hits stays within budget iff it is no longer than the kept one. */
  lemma {:induction false} BudgetedWithin(hits: seq<Hit>, spent: nat)
    ensures forall m :: 0 <= m <= |hits| ==>
      (spent + SumTokens(hits[..m]) < MaxContextTokens <==>
        m <= |Budgeted(hits, spent)| && (m > 0 || spent < MaxContextTokens))
  {
    assert hits[..0] == [];
    if hits != [] {
      var t := Tokens(hits[0].doc);
      var kept := Budgeted(hits, spent);
      SumTokensHead(hits);
      if spent + t < MaxContextTokens {
        BudgetedWithin(hits[1..], spent + t);
        assert |kept| == 1 + |Budgeted(hits[1..], spent + t)|;
        forall m | 1 <= m <= |hits|
          ensures spent + SumTokens(hits[..m]) < MaxContextTokens <==> m <= |kept|
        {
          assert m - 1 <= |hits[1..]|;
        }
      } else {
        assert kept == [];
      }
    }
  }

  /**
   * From `spent` on, the kept hits are exactly the longest prefix whose tokens
   * keep `spent` plus their sum below the budget: a prefix is within budget
   * iff it is no longer than the kept one.
   */
  lemma BudgetedSpec(hits: seq<Hit>, spent: nat)
    ensures var kept := Budgeted(hits, spent);
      |kept| <= |hits| && kept == hits[..|kept|] &&
      (spent < MaxContextTokens ==> spent + SumTokens(kept) < MaxContextTokens) &&
      forall m :: 0 <= m <= |hits| ==>
        (spent + SumTokens(hits[..m]) < MaxContextTokens <==> m <= |kept| && (m > 0 || spent < MaxContextTokens))
  {
    BudgetedPrefix(hits, spent);
    BudgetedWithin(hits, spent);
  }

  /**
   * The kept hits are a prefix of the sorted hits, their tokens sum to less
   * than 4000, and a prefix of the sorted hits stays below 4000 iff it is no
   * longer than the kept one: after the first hit that does not fit
   * (remaining tokens every hit of which is non-negative), nothing is taken.
   */
  lemma SelectedSpec(hits: seq<Hit>)
    ensures var kept := Selected(hits);
      |kept| <= |hits| && kept == hits[..|kept|] &&
      SumTokens(kept) < MaxContextTokens &&
      (|kept| < |hits| ==> SumTokens(kept) + Tokens(hits[|kept|].doc) >= MaxContextTokens) &&
      forall m :: 0 <= m <= |hits| ==> (SumTokens(hits[..m]) < MaxContextTokens <==> m <= |kept|)
  {
    BudgetedSpec(hits, 0);
    var kept := Selected(hits);
    if |kept| < |hits| {
      var m := |kept| + 1;
      assert hits[..m][..m - 1] == kept;
    }
  }

  /**
   * Costs 1000, 3500 and 200 keep only the first chunk: the second does not
   * fit, and the loop stops there although the third would fit.
   */
  lemma HaltsAtFirstOverflow(hits: seq<Hit>)
    requires |hits| == 3
    requires Tokens(hits[0].doc) == 1000 && Tokens(hits[1].doc) == 3500 && Tokens(hits[2].doc) == 200
    ensures Selected(hits) == [hits[0]]
    ensures SumTokens([hits[0], hits[2]]) < MaxContextTokens
  {
    assert hits[1..][0] == hits[1];
    assert Budgeted(hits[1..], 1000) == [];
    assert Budgeted(hits, 0) == [hits[0]] + Budgeted(hits[1..], 1000);
    var pair := [hits[0], hits[2]];
    assert pair[..1] == [hits[0]];
    assert [hits[0]][..0] == [];
    assert SumTokens([hits[0]]) == 1000;
    assert SumTokens(pair) == SumTokens(pair[..1]) + Tokens(hits[2].doc);
  }

  // ---------------------------------------------------------------------------
  // Context and prompt
  // ---------------------------------------------------------------------------

  /** The texts of the hits, in order. */
  function Docs(hits: seq<Hit>): seq<string> {
    seq(|hits|, i requires 0 <= i < |hits| => hits[i].doc)
  }

  const ContextSeparator: string := "\n\n"

  /** `"\n\n".join(selected_context)` */
  function Context(selected: seq<Hit>): string {
    Join(Docs(selected), ContextSeparator)
  }

  /**
   * Text `i` of the selection in the context: at its offset, the first one at
   * the start, followed by exactly a blank line and the next text, or ending
   * the context when it is the last.
   */
  predicate PlacedInContext(selected: seq<Hit>, i: nat)
    requires i < |selected|
  {
    var c := Context(selected);
    var o := JoinOffset(Docs(selected), ContextSeparator, i);
    var e := o + |selected[i].doc|;
    e <= |c| && c[o..e] == selected[i].doc &&
    (i == 0 ==> o == 0) &&
    (i + 1 < |selected| ==>
      e + 2 <= |c| && c[e..e + 2] == ContextSeparator && JoinOffset(Docs(selected), ContextSeparator, i + 1) == e + 2) &&
    (i + 1 == |selected| ==> |c| == e)
  }

  /**
   * `"\n\n".join(...)` of the selected texts: empty when nothing is selected;
   * otherwise the texts follow one another in selection order, with a blank
   * line between each two and nothing before the first or after the last.
   */
  lemma ContextSpec(selected: seq<Hit>)
    ensures selected == [] ==> Context(selected) == []
    ensures forall i :: 0 <= i < |selected| ==> PlacedInContext(selected, i)
  {
    forall i | 0 <= i < |selected| ensures PlacedInContext(selected, i) {
      JoinAt(Docs(selected), ContextSeparator, i);
    }
    if selected == [] {
      assert Docs(selected) == [];
    }
  }

  const Refusal: string := "I cannot find the answer in the provided documents"

  const PromptIntro: string :=
    "\n    You are an AI Research Assistant. Answer the user's question based *only* on the following context.\n    If the context does not contain the answer, say \""
  const PromptContextHeader: string := "\"\n    Context:\n    ---\n    "
  const PromptQuestionHeader: string := "\n    ---\n\n    Question: "
  const PromptClosing: string := "\n\n    Answer with specific references to papers when possible\n    "

  /** The prompt template filled with the context and the question. */
  function Prompt(context: string, question: string): string {
    PromptIntro + Refusal + PromptContextHeader + context + PromptQuestionHeader + question + PromptClosing
  }

  /**
   * The prompt contains the refusal phrase, then the context, then the
   * question, each verbatim and the three in that order.
   */
  lemma PromptOrder(context: string, question: string)
    ensures var p := Prompt(context, question);
      var a := |PromptIntro|;
      var b := a + |Refusal| + |PromptContextHeader|;
      var c := b + |context| + |PromptQuestionHeader|;
      a + |Refusal| <= b && b + |context| <= c && c + |question| <= |p| &&
      p[a..a + |Refusal|] == Refusal && p[b..b + |context|] == context && p[c..c + |question|] == question
  {
    var p := Prompt(context, question);
    var a := |PromptIntro|;
    var b := a + |Refusal| + |PromptContextHeader|;
    var c := b + |context| + |PromptQuestionHeader|;
    var part1 := PromptIntro + Refusal;
    var part2 := part1 + PromptContextHeader + context;
    var part3 := part2 + PromptQuestionHeader + question;
    assert p == part3 + PromptClosing;
    assert part1[a..] == Refusal;
    assert part2[b..] == context;
    assert part3[c..] == question;
  }

  // ---------------------------------------------------------------------------
  // answer_question
  // ---------------------------------------------------------------------------

  /** What the endpoint gets back: the answer and the chunk count, or the HTTP error raised. */
  datatype Outcome = Answered(answer: string, chunksUsed: nat) | Failed(status: nat, detail: string)

  /**
   * `answer_question`, given the documents and distances the index query
   * returned and the language model as an oracle from prompt to reply.
   */
  method AnswerQuestion(question: string, documents: seq<string>, distances: seq<int>,
                        llm: string -> Result<string>)
    returns (r: Outcome)
    ensures var selected := Selected(SortByDistance(Zip(documents, distances)));
      var reply := llm(Prompt(Context(selected), question));
      (reply.Ok? ==> r == Answered(reply.value, |selected|)) &&
      (reply.Err? ==> r == Failed(500, "LLM Error: " + reply.message))
  {
    var sortedDocs := SortByDistance(Zip(documents, distances));
    var selected, totalTokens := SelectWithinBudget(sortedDocs);
    var prompt := Prompt(Context(selected), question);
    var reply := llm(prompt);
    match reply {
      case Ok(answer) =>
        r := Answered(answer, |selected|);
      case Err(e) =>
        r := Failed(500, "LLM Error: " + e);
    }
  }

  /**
   * On success the reported chunk count is the number of retrieved chunks that
   * fit the budget, which is never more than were retrieved.
   */
  lemma ChunksUsedBound(documents: seq<string>, distances: seq<int>)
    ensures var sorted := SortByDistance(Zip(documents, distances));
      |Selected(sorted)| <= |sorted| == |Zip(documents, distances)|
  {
    var hits := Zip(documents, distances);
    SortByDistanceSpec(hits);
    BudgetedSpec(SortByDistance(hits), 0);
    assert |multiset(SortByDistance(hits))| == |multiset(hits)|;
  }
}
