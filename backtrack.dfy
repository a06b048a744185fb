/** The pieces of leftmost-first backtracking that the three fixed regular
    expressions of the visitor are built from. A pattern element that can
    match in several ways is described by the ORDERED list of positions where
    it may end, most preferred first; a sequence of elements takes the first
    successful combination in that order, as Swift's regex engine does. */
module Backtrack {
  import opened Wrappers
  import opened Text

  // ---------------------------------------------------------------- greedy runs

  /** End of the longest run of characters of class `cls` that starts at `i`. */
  function RunEnd(s: string, i: nat, cls: CharClass): (e: nat)
    requires i <= |s|
    ensures i <= e <= |s|
    decreases |s| - i
  {
    if i < |s| && InClass(s[i], cls) then RunEnd(s, i + 1, cls) else i
  }

  /** The run is exactly as long as the class holds: every character before
      its end is in the class, and the one at its end, if any, is not. */
  lemma {:induction false} RunEndRun(s: string, i: nat, cls: CharClass)
    requires i <= |s|
    ensures forall k :: i <= k < RunEnd(s, i, cls) ==> InClass(s[k], cls)
    ensures RunEnd(s, i, cls) == |s| || !InClass(s[RunEnd(s, i, cls)], cls)
    decreases |s| - i
  {
    if i < |s| && InClass(s[i], cls) {
      RunEndRun(s, i + 1, cls);
    }
  }

  /** The run of the class from `i` ends at `e` when every character before
      `e` is in the class and the one at `e` is not. */
  lemma {:induction false} RunEndIs(s: string, i: nat, cls: CharClass, e: nat)
    requires i <= e <= |s|
    requires forall k :: i <= k < e ==> InClass(s[k], cls)
    requires e == |s| || !InClass(s[e], cls)
    ensures RunEnd(s, i, cls) == e
    decreases e - i
  {
    if i < e {
      RunEndIs(s, i + 1, cls, e);
    }
  }

  /** The positions `hi, hi - 1, ..., lo`, in that order. */
  function Countdown(lo: nat, hi: nat): (r: seq<nat>)
    ensures |r| == if lo <= hi then hi - lo + 1 else 0
    decreases hi - lo
  {
    if hi < lo then [] else if hi == lo then [hi] else [hi] + Countdown(lo, hi - 1)
  }

  /** The countdown holds exactly the positions from `hi` down to `lo`. */
  lemma {:induction false} CountdownIs(lo: nat, hi: nat)
    ensures forall k :: k in Countdown(lo, hi) ==> lo <= k <= hi
    ensures forall j :: 0 <= j < |Countdown(lo, hi)| ==> Countdown(lo, hi)[j] == hi - j
    decreases hi - lo
  {
    if lo < hi {
      CountdownIs(lo, hi - 1);
      var r := Countdown(lo, hi);
      assert r == [hi] + Countdown(lo, hi - 1);
      forall j | 0 < j < |r| ensures r[j] == hi - j {
        assert r[j] == Countdown(lo, hi - 1)[j - 1];
      }
    }
  }

  /** The ends of a greedy quantifier over the class `cls` starting at `i`
      with at least `min` repetitions (`\s*` for 0, `\w+` for 1), longest
      first. */
  function Greedy(s: string, i: nat, cls: CharClass, min: nat): (r: seq<nat>)
  {
    if i > |s| then [] else Countdown(i + min, RunEnd(s, i, cls))
  }

  /** Every end the quantifier offers lies between `min` repetitions and
      the end of the text. */
  lemma GreedyBounds(s: string, i: nat, cls: CharClass, min: nat, k: nat)
    ensures k in Greedy(s, i, cls, min) ==> i + min <= k <= |s|
  {
    if i <= |s| {
      CountdownIs(i + min, RunEnd(s, i, cls));
    }
  }

  /** Every end the quantifier offers closes a run of the class. */
  lemma GreedyRuns(s: string, i: nat, cls: CharClass, min: nat)
    ensures forall k, j :: k in Greedy(s, i, cls, min) && i <= j < k && j < |s| ==> InClass(s[j], cls)
  {
    if i <= |s| {
      var e := RunEnd(s, i, cls);
      RunEndRun(s, i, cls);
      CountdownIs(i + min, e);
    }
  }

  /** A greedy quantifier offers every end from the longest run down to `min`
      repetitions, longest first. */
  lemma GreedyLongestFirst(s: string, i: nat, cls: CharClass, min: nat)
    requires i <= |s|
    ensures var r := Greedy(s, i, cls, min); var e := RunEnd(s, i, cls);
      && |r| == (if i + min <= e then e - (i + min) + 1 else 0)
      && forall j :: 0 <= j < |r| ==> r[j] == e - j
  {
    CountdownIs(i + min, RunEnd(s, i, cls));
  }

  // ---------------------------------------------------------------- first success

  /** The result of the first candidate, in order, for which `f` succeeds. */
  function FirstOf<T>(cands: seq<nat>, f: nat -> Option<T>): Option<T>
  {
    if |cands| == 0 then None
    else if f(cands[0]).Some? then f(cands[0])
    else FirstOf(cands[1..], f)
  }

  /** A success is the outcome of one of the candidates. */
  lemma {:induction false} FirstOfWitness<T>(cands: seq<nat>, f: nat -> Option<T>)
    ensures FirstOf(cands, f).Some? ==> exists i :: 0 <= i < |cands| && f(cands[i]) == FirstOf(cands, f)
  {
    if |cands| > 0 && f(cands[0]).None? {
      FirstOfWitness(cands[1..], f);
      if FirstOf(cands[1..], f).Some? {
        var i :| 0 <= i < |cands[1..]| && f(cands[1..][i]) == FirstOf(cands[1..], f);
        assert cands[i + 1] == cands[1..][i];
      }
    }
  }

  /** `FirstOf` succeeds with the first candidate that succeeds, and fails when none does. */
  lemma {:induction false} FirstOfIsFirst<T>(cands: seq<nat>, f: nat -> Option<T>)
    ensures FirstOf(cands, f).None? <==> forall i :: 0 <= i < |cands| ==> f(cands[i]).None?
    ensures forall i :: 0 <= i < |cands| && f(cands[i]).Some?
                        && (forall j :: 0 <= j < i ==> f(cands[j]).None?)
                        ==> FirstOf(cands, f) == f(cands[i])
  {
    if |cands| > 0 {
      FirstOfIsFirst(cands[1..], f);
      assert forall i :: 1 <= i < |cands| ==> cands[i] == cands[1..][i - 1];
    }
  }

  /** When the run of the class from `i` ends at `e`, the longest end is
      tried first: a search whose continuation succeeds there yields that
      outcome. */
  lemma FirstEndWins<T>(s: string, i: nat, cls: CharClass, min: nat, e: nat, f: nat -> Option<T>)
    requires i + min <= e <= |s|
    requires forall k :: i <= k < e ==> InClass(s[k], cls)
    requires e == |s| || !InClass(s[e], cls)
    requires f(e).Some?
    ensures FirstOf(Greedy(s, i, cls, min), f) == f(e)
  {
    RunEndIs(s, i, cls, e);
    GreedyLongestFirst(s, i, cls, min);
  }

  /** When the continuation fails at the longest end and succeeds one
      character shorter, the search yields the shorter end's outcome. */
  lemma SecondEndWins<T>(s: string, i: nat, cls: CharClass, min: nat, e: nat, f: nat -> Option<T>)
    requires i + min < e <= |s|
    requires forall k :: i <= k < e ==> InClass(s[k], cls)
    requires e == |s| || !InClass(s[e], cls)
    requires f(e).None? && f(e - 1).Some?
    ensures FirstOf(Greedy(s, i, cls, min), f) == f(e - 1)
  {
    RunEndIs(s, i, cls, e);
    GreedyLongestFirst(s, i, cls, min);
    var r := Greedy(s, i, cls, min);
    assert r[1..][0] == e - 1;
  }

  // ---------------------------------------------------------------- element sequences

  /** One element of a pattern without captures: a greedy run of a class, a
      literal character, or an optional group `(?:c\s*)?` made of a literal
      and a greedy run. */
  datatype Element =
    | Run(cls: CharClass, min: nat)
    | Literal(c: char)
    | OptionalGroup(lead: char, tail: CharClass)

  /** The ends of one element from `i`, in the order the engine tries them.
      An optional group is greedy: it tries the group before skipping it. */
  function ElementEnds(s: string, e: Element, i: nat): seq<nat>
  {
    match e
    case Run(cls, min) => Greedy(s, i, cls, min)
    case Literal(c) => if i < |s| && s[i] == c then [i + 1] else []
    case OptionalGroup(c, cls) =>
      (if i < |s| && s[i] == c then Greedy(s, i + 1, cls, 0) else []) + [i]
  }

  /** The ends of the elements `pat`, in sequence, from `i`, in the order the
      engine tries them: for each end of the first element, in its order,
      the ends of the rest from there. */
  function PatternEnds(s: string, pat: seq<Element>, i: nat): seq<nat>
    decreases |pat|, 0
  {
    if |pat| == 0 then [i] else EachEnds(s, pat[1..], ElementEnds(s, pat[0], i))
  }

  /** The ends of `pat` from each of the positions `cands`, in order. */
  function EachEnds(s: string, pat: seq<Element>, cands: seq<nat>): seq<nat>
    decreases |pat|, 1, |cands|
  {
    if |cands| == 0 then [] else PatternEnds(s, pat, cands[0]) + EachEnds(s, pat, cands[1..])
  }

  // ---------------------------------------------------------------- candidates tried first

  /** The candidates `r` are tried in the order of `x` first. */
  predicate Leads(r: seq<nat>, x: seq<nat>)
  {
    |x| <= |r| && r[..|x|] == x
  }

  /** The first candidate tried is `k`. */
  predicate TriedFirst(r: seq<nat>, k: nat)
  {
    |r| > 0 && r[0] == k
  }

  /** The first two candidates tried are `k1` and `k2`. */
  predicate TriedFirstTwo(r: seq<nat>, k1: nat, k2: nat)
  {
    |r| > 1 && r[0] == k1 && r[1] == k2
  }

  /** Candidates led by `x` are tried first at the first of `x`. (The lemmas
      about `Leads` state their premises inside their conclusions, so that
      a caller does not have to re-examine candidate lists to meet a
      precondition.) */
  lemma LeadsTried(r: seq<nat>, x: seq<nat>)
    ensures Leads(r, x) && |x| > 0 ==> TriedFirst(r, x[0])
    ensures Leads(r, x) && |x| > 1 ==> TriedFirstTwo(r, x[0], x[1])
  {
    if Leads(r, x) && |x| > 0 {
      assert r[0] == r[..|x|][0];
    }
    if Leads(r, x) && |x| > 1 {
      assert r[1] == r[..|x|][1];
    }
  }

  /** A list is led by any prefix of it. */
  lemma LeadsAppend(x: seq<nat>, y: seq<nat>)
    ensures Leads(x + y, x)
  {
    assert (x + y)[..|x|] == x;
  }

  /** Candidates led by a list tried first at `k` are tried first at `k`. */
  lemma LeadsTriedFirst(r: seq<nat>, y: seq<nat>, k: nat)
    ensures Leads(r, y) && TriedFirst(y, k) ==> TriedFirst(r, k)
  {
    if Leads(r, y) && TriedFirst(y, k) {
      assert r[0] == r[..|y|][0];
    }
  }

  /** Leading is transitive. */
  lemma LeadsTrans(r: seq<nat>, y: seq<nat>, x: seq<nat>)
    ensures Leads(r, y) && Leads(y, x) ==> Leads(r, x)
  {
    if Leads(r, y) && Leads(y, x) {
      assert r[..|x|] == r[..|y|][..|x|];
    }
  }

  // ---------------------------------------------------------------- stepping through a pattern

  /** The ends of nothing more are the candidates themselves. */
  lemma {:induction false} EachEndsOfNothing(s: string, cands: seq<nat>)
    ensures EachEnds(s, [], cands) == cands
    decreases |cands|
  {
    if |cands| > 0 {
      EachEndsOfNothing(s, cands[1..]);
      assert cands == [cands[0]] + cands[1..];
    }
  }

  /** The ends of `pat` from candidates led by `k` are led by the ends of `pat` from `k`. */
  lemma EachEndsFirst(s: string, pat: seq<Element>, cands: seq<nat>, k: nat)
    requires TriedFirst(cands, k)
    ensures Leads(EachEnds(s, pat, cands), PatternEnds(s, pat, k))
  {
    LeadsAppend(PatternEnds(s, pat, k), EachEnds(s, pat, cands[1..]));
  }

  /** A run whose longest stretch from `i` ends at `e` is tried first to
      there. */
  lemma RunStep(s: string, pat: seq<Element>, i: nat, e: nat)
    requires |pat| > 0 && pat[0].Run? && i + pat[0].min <= e <= |s|
    requires forall k :: i <= k < e ==> InClass(s[k], pat[0].cls)
    requires e == |s| || !InClass(s[e], pat[0].cls)
    ensures Leads(PatternEnds(s, pat, i), PatternEnds(s, pat[1..], e))
  {
    var g := Greedy(s, i, pat[0].cls, pat[0].min);
    assert TriedFirst(g, e) by {
      RunEndIs(s, i, pat[0].cls, e);
      GreedyLongestFirst(s, i, pat[0].cls, pat[0].min);
    }
    EachEndsFirst(s, pat[1..], g, e);
  }

  /** A run whose longest stretch from `i` ends at `e`, and which may stop
      one character short of it, is tried first to there and then to one
      character before. */
  lemma RunStepTwo(s: string, pat: seq<Element>, i: nat, e: nat)
    requires |pat| > 0 && pat[0].Run? && i + pat[0].min < e <= |s|
    requires forall k :: i <= k < e ==> InClass(s[k], pat[0].cls)
    requires e == |s| || !InClass(s[e], pat[0].cls)
    ensures Leads(PatternEnds(s, pat, i), PatternEnds(s, pat[1..], e) + PatternEnds(s, pat[1..], e - 1))
  {
    var g := Greedy(s, i, pat[0].cls, pat[0].min);
    assert TriedFirstTwo(g, e, e - 1) by {
      RunEndIs(s, i, pat[0].cls, e);
      GreedyLongestFirst(s, i, pat[0].cls, pat[0].min);
    }
    EachEndsFirstTwo(s, pat[1..], g, e, e - 1);
  }

  /** The same for candidates led by `k1` and `k2`. */
  lemma EachEndsFirstTwo(s: string, pat: seq<Element>, cands: seq<nat>, k1: nat, k2: nat)
    requires TriedFirstTwo(cands, k1, k2)
    ensures Leads(EachEnds(s, pat, cands), PatternEnds(s, pat, k1) + PatternEnds(s, pat, k2))
  {
    var x, y, rest := PatternEnds(s, pat, k1), PatternEnds(s, pat, k2), EachEnds(s, pat, cands[1..][1..]);
    assert cands[1..][0] == k2;
    assert EachEnds(s, pat, cands) == x + (y + rest);
    assert x + (y + rest) == (x + y) + rest;
    LeadsAppend(x + y, rest);
  }

  /** A literal that is there is passed over. */
  lemma LiteralStep(s: string, pat: seq<Element>, i: nat)
    requires |pat| > 0 && pat[0].Literal? && i < |s| && s[i] == pat[0].c
    ensures PatternEnds(s, pat, i) == PatternEnds(s, pat[1..], i + 1)
  {
    var rest := pat[1..];
    assert ElementEnds(s, pat[0], i) == [i + 1];
    assert [i + 1][1..] == [];
    assert EachEnds(s, rest, [i + 1]) == PatternEnds(s, rest, i + 1) + EachEnds(s, rest, []);
  }

  /** A closing optional group whose literal is there, followed by a run of
      its class that ends at `e`, is tried first to `e`. */
  lemma OptionalTaken(s: string, g: Element, i: nat, e: nat)
    requires g.OptionalGroup? && i < e <= |s| && s[i] == g.lead
    requires forall k :: i < k < e ==> InClass(s[k], g.tail)
    requires e == |s| || !InClass(s[e], g.tail)
    ensures TriedFirst(PatternEnds(s, [g], i), e)
  {
    RunEndIs(s, i + 1, g.tail, e);
    GreedyLongestFirst(s, i + 1, g.tail, 0);
    EachEndsOfNothing(s, ElementEnds(s, g, i));
    assert [g][1..] == [];
  }

  /** A closing optional group whose literal is not there ends where it starts. */
  lemma OptionalSkipped(s: string, g: Element, i: nat)
    requires g.OptionalGroup? && (i >= |s| || s[i] != g.lead)
    ensures PatternEnds(s, [g], i) == [i]
  {
    EachEndsOfNothing(s, ElementEnds(s, g, i));
    assert [g][1..] == [];
  }
}
