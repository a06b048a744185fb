/** Extraction of override settings from a marker comment: the two fixed
    patterns of FixturableStructVisitor,
      clause   `\(override:\s*((?:\w+\s*=\s*[\.\w\(\)\s]+(?:,\s*)?)*)\)`
      pair     `\s*(\w+)\s*=\s*([\(\)\.\w\s]+)\s*[\),]`
    written as leftmost-first backtracking recognisers, and the dictionary the
    visitor fills from the pairs. */
module Overrides {
  import opened Wrappers
  import opened Text
  import opened Backtrack

  const OverrideOpening: string := "(override:"

  // ---------------------------------------------------------------- clause

  /** One repetition `\w+\s*=\s*[\.\w\(\)\s]+(?:,\s*)?` of the setting group,
      element by element. */
  const SettingPattern: seq<Element> :=
    [Run(WordClass, 1), Run(SpaceClass, 0), Literal('='), Run(SpaceClass, 0),
     Run(ValueClass, 1), OptionalGroup(',', SpaceClass)]

  /** The ends of one repetition of the setting group from `i`, in the order
      the engine tries them. */
  function SettingEnds(s: string, i: nat): seq<nat>
  {
    PatternEnds(s, SettingPattern, i)
  }

  /** `(?:...)*\)` from `i`: the greedy star tries one more repetition before it
      lets the closing parenthesis match. */
  function SettingsThenClose(s: string, i: nat): (r: Option<nat>)
    ensures r.Some? ==> i < r.value <= |s| && s[r.value - 1] == ')'
    decreases |s| - i, 1
  {
    var more := FirstSettingsThenClose(s, i, SettingEnds(s, i));
    if more.Some? then more
    else if i < |s| && s[i] == ')' then Some(i + 1)
    else None
  }

  /** `SettingsThenClose` from the first of the positions `cands`, in order,
      from which it matches. Used for the ends of one more repetition from `i`,
      which all lie beyond `i` because every repetition consumes at least a
      word character (the guard states that for the termination check), and
      for the ends of `\s*` after the clause opening. */
  function FirstSettingsThenClose(s: string, i: nat, cands: seq<nat>): (r: Option<nat>)
    ensures r.Some? ==> i < r.value <= |s| && s[r.value - 1] == ')'
    decreases |s| - i, 0, |cands|
  {
    if |cands| == 0 then None
    else
      var k := cands[0];
      var here := if i < k <= |s| then SettingsThenClose(s, k) else None;
      if here.Some? then here else FirstSettingsThenClose(s, i, cands[1..])
  }

  /** The end of a clause match that starts at `p`, if one does. */
  function OverrideClauseAt(s: string, p: nat): (r: Option<nat>)
    ensures r.Some? ==> StartsAt(s, p, OverrideOpening) && p < r.value <= |s| && s[r.value - 1] == ')'
  {
    if StartsAt(s, p, OverrideOpening) then
      var cands := Greedy(s, p + |OverrideOpening|, SpaceClass, 0);
      FirstSettingsThenClose(s, p, cands)
    else None
  }

  /** `matches(of:)` for the clause pattern: the whole text of each successive
      non-overlapping match, scanning left to right from `p`. */
  function OverrideClauses(s: string, p: nat): (r: seq<string>)
    decreases |s| - p
  {
    if p >= |s| then []
    else match OverrideClauseAt(s, p)
      case Some(e) => [s[p..e]] + OverrideClauses(s, e)
      case None => OverrideClauses(s, p + 1)
  }

  // ---------------------------------------------------------------- pairs

  datatype OverridePair = OverridePair(key: string, value: string)

  datatype PairMatch = PairMatch(pair: OverridePair, end: nat)

  /** What capture group 1 can hold: a non-empty run of word characters. */
  predicate IsKey(k: string)
  {
    |k| > 0 && AllIn(k, WordClass)
  }

  /** What capture group 2 can hold: word characters, `.`, `(`, `)` and whitespace, never a comma. */
  predicate IsValue(v: string)
  {
    |v| > 0 && AllIn(v, ValueClass)
  }

  /** A greedy run from `i` to any of its ends is a run of the class. */
  lemma GreedySlice(m: string, i: nat, cls: CharClass, min: nat, j: nat)
    requires j in Greedy(m, i, cls, min)
    ensures i < j || min == 0
    ensures i <= j <= |m| && forall k :: 0 <= k < |Slice(m, i, j)| ==> InClass(Slice(m, i, j)[k], cls)
  {
    var t := Slice(m, i, j);
    GreedyBounds(m, i, cls, min, j);
    GreedyRuns(m, i, cls, min);
    forall k | 0 <= k < |t| ensures InClass(t[k], cls) {
      assert t[k] == m[i + k];
    }
  }

  /** A pair whose captures have the shapes the pair pattern allows. */
  predicate IsCapture(pair: OverridePair)
  {
    IsKey(pair.key) && IsValue(pair.value)
  }

  /** `\s*[\),]` after the value `m[d..e]`, with the key `m[a..b]`. */
  function PairClose(m: string, a: nat, b: nat, d: nat, e: nat): (r: Option<PairMatch>)
    ensures r.Some? ==> r.value.pair == OverridePair(Slice(m, a, b), Slice(m, d, e))
                        && e < r.value.end <= |m|
                        && (m[r.value.end - 1] == ')' || m[r.value.end - 1] == ',')
  {
    var cands := Greedy(m, e, SpaceClass, 0);
    var f := (g: nat) =>
      if g < |m| && (m[g] == ')' || m[g] == ',')
      then Some(PairMatch(OverridePair(Slice(m, a, b), Slice(m, d, e)), g + 1))
      else None;
    var r := FirstOf(cands, f);
    assert r.Some? ==> r.value.pair == OverridePair(Slice(m, a, b), Slice(m, d, e))
                       && e < r.value.end <= |m| && (m[r.value.end - 1] == ')' || m[r.value.end - 1] == ',') by {
      FirstOfWitness(cands, f);
      if r.Some? {
        var i :| 0 <= i < |cands| && f(cands[i]) == r;
        assert cands[i] in cands;
        GreedyBounds(m, e, SpaceClass, 0, cands[i]);
      }
    }
    r
  }

  lemma ValueThenClose(m: string, a: nat, b: nat, d: nat, e: nat)
    requires e in Greedy(m, d, ValueClass, 1)
    ensures var r := PairClose(m, a, b, d, e);
      r.Some? ==> r.value.pair.key == Slice(m, a, b) && IsValue(r.value.pair.value)
                  && d < r.value.end <= |m|
  {
    GreedySlice(m, d, ValueClass, 1, e);
  }

  /** `([\(\)\.\w\s]+)` from `d`, then the close. */
  function PairValue(m: string, a: nat, b: nat, d: nat): (r: Option<PairMatch>)
    ensures r.Some? ==> r.value.pair.key == Slice(m, a, b) && IsValue(r.value.pair.value)
                        && d < r.value.end <= |m|
  {
    var cands := Greedy(m, d, ValueClass, 1);
    var f := (e: nat) => PairClose(m, a, b, d, e);
    var r := FirstOf(cands, f);
    assert r.Some? ==> r.value.pair.key == Slice(m, a, b) && IsValue(r.value.pair.value) && d < r.value.end <= |m| by {
      FirstOfWitness(cands, f);
      if r.Some? {
        var i :| 0 <= i < |cands| && f(cands[i]) == r;
        assert cands[i] in cands;
        GreedyBounds(m, d, ValueClass, 1, cands[i]);
        ValueThenClose(m, a, b, d, cands[i]);
      }
    }
    r
  }

  /** `\s*` after the equals sign, then the value. */
  function PairAfterEquals(m: string, a: nat, b: nat, c: nat): (r: Option<PairMatch>)
    ensures r.Some? ==> r.value.pair.key == Slice(m, a, b) && IsValue(r.value.pair.value)
                        && c < r.value.end <= |m|
  {
    var cands := Greedy(m, c, SpaceClass, 0);
    var f := (d: nat) => PairValue(m, a, b, d);
    var r := FirstOf(cands, f);
    assert r.Some? ==> r.value.pair.key == Slice(m, a, b) && IsValue(r.value.pair.value) && c < r.value.end <= |m| by {
      FirstOfWitness(cands, f);
      if r.Some? {
        var i :| 0 <= i < |cands| && f(cands[i]) == r;
        assert cands[i] in cands;
        GreedyBounds(m, c, SpaceClass, 0, cands[i]);
      }
    }
    r
  }

  /** `\s*=` after the key `m[a..b]`, then the rest. */
  function PairAfterKey(m: string, a: nat, b: nat): (r: Option<PairMatch>)
    ensures r.Some? ==> r.value.pair.key == Slice(m, a, b) && IsValue(r.value.pair.value)
                        && b < r.value.end <= |m|
  {
    var cands := Greedy(m, b, SpaceClass, 0);
    var f := (c: nat) => if c < |m| && m[c] == '=' then PairAfterEquals(m, a, b, c + 1) else None;
    var r := FirstOf(cands, f);
    assert r.Some? ==> r.value.pair.key == Slice(m, a, b) && IsValue(r.value.pair.value) && b < r.value.end <= |m| by {
      FirstOfWitness(cands, f);
      if r.Some? {
        var i :| 0 <= i < |cands| && f(cands[i]) == r;
        assert cands[i] in cands;
        GreedyBounds(m, b, SpaceClass, 0, cands[i]);
      }
    }
    r
  }

  lemma KeyThenRest(m: string, a: nat, b: nat)
    requires b in Greedy(m, a, WordClass, 1)
    ensures var r := PairAfterKey(m, a, b);
      r.Some? ==> IsCapture(r.value.pair) && a < r.value.end <= |m|
  {
    GreedySlice(m, a, WordClass, 1, b);
  }

  /** `(\w+)` from `a`, then the rest. */
  function PairFromKey(m: string, a: nat): (r: Option<PairMatch>)
    ensures r.Some? ==> IsCapture(r.value.pair) && a < r.value.end <= |m|
  {
    var cands := Greedy(m, a, WordClass, 1);
    var f := (b: nat) => PairAfterKey(m, a, b);
    var r := FirstOf(cands, f);
    assert r.Some? ==> IsCapture(r.value.pair) && a < r.value.end <= |m| by {
      FirstOfWitness(cands, f);
      if r.Some? {
        var i :| 0 <= i < |cands| && f(cands[i]) == r;
        assert cands[i] in cands;
        GreedyBounds(m, a, WordClass, 1, cands[i]);
        KeyThenRest(m, a, cands[i]);
      }
    }
    r
  }

  /** A pair match that starts at `p`, if one does. */
  function PairAt(m: string, p: nat): (r: Option<PairMatch>)
    ensures r.Some? ==> IsCapture(r.value.pair) && p < r.value.end <= |m|
  {
    var cands := Greedy(m, p, SpaceClass, 0);
    var f := (a: nat) => PairFromKey(m, a);
    var r := FirstOf(cands, f);
    assert r.Some? ==> IsCapture(r.value.pair) && p < r.value.end <= |m| by {
      FirstOfWitness(cands, f);
      if r.Some? {
        var i :| 0 <= i < |cands| && f(cands[i]) == r;
        assert cands[i] in cands;
        GreedyBounds(m, p, SpaceClass, 0, cands[i]);
      }
    }
    r
  }

  /** `matches(of:)` for the pair pattern: the captures of each successive match. */
  function PairMatches(m: string, p: nat): seq<OverridePair>
    decreases |m| - p
  {
    if p >= |m| then []
    else
      var here := PairAt(m, p);
      if here.Some? then [here.value.pair] + PairMatches(m, here.value.end)
      else PairMatches(m, p + 1)
  }

  predicate AllCaptures(pairs: seq<OverridePair>)
  {
    forall i :: 0 <= i < |pairs| ==> IsCapture(pairs[i])
  }

  lemma ConsCaptures(x: OverridePair, rest: seq<OverridePair>)
    requires IsCapture(x) && AllCaptures(rest)
    ensures AllCaptures([x] + rest)
  {
    var r := [x] + rest;
    forall i | 0 <= i < |r| ensures IsCapture(r[i]) {
      if i > 0 { assert r[i] == rest[i - 1]; }
    }
  }

  lemma AppendCaptures(a: seq<OverridePair>, b: seq<OverridePair>)
    requires AllCaptures(a) && AllCaptures(b)
    ensures AllCaptures(a + b)
  {
    var r := a + b;
    forall i | 0 <= i < |r| ensures IsCapture(r[i]) {
      if i >= |a| { assert r[i] == b[i - |a|]; } else { assert r[i] == a[i]; }
    }
  }

  // ---------------------------------------------------------------- settings

  /** The pairs of every clause, clause by clause. */
  function ClausePairs(clauses: seq<string>): seq<OverridePair>
  {
    if |clauses| == 0 then []
    else ClausePairs(clauses[..|clauses| - 1]) + PairMatches(clauses[|clauses| - 1], 0)
  }

  /** Every pair match has a word for its key and a value of the value class. */
  lemma {:induction false} PairMatchesCaptures(m: string, p: nat)
    ensures AllCaptures(PairMatches(m, p))
    decreases |m| - p
  {
    if p < |m| {
      var here := PairAt(m, p);
      if here.Some? {
        PairMatchesCaptures(m, here.value.end);
        ConsCaptures(here.value.pair, PairMatches(m, here.value.end));
      } else {
        PairMatchesCaptures(m, p + 1);
      }
    }
  }

  /** So does every pair of every clause. */
  lemma {:induction false} ClausePairsCaptures(clauses: seq<string>)
    ensures AllCaptures(ClausePairs(clauses))
  {
    if |clauses| > 0 {
      ClausePairsCaptures(clauses[..|clauses| - 1]);
      PairMatchesCaptures(clauses[|clauses| - 1], 0);
      AppendCaptures(ClausePairs(clauses[..|clauses| - 1]), PairMatches(clauses[|clauses| - 1], 0));
    }
  }

  /** The dictionary built by assigning the pairs in order. */
  function PairsToMap(pairs: seq<OverridePair>): map<string, string>
  {
    if |pairs| == 0 then map[]
    else PairsToMap(pairs[..|pairs| - 1])[pairs[|pairs| - 1].key := pairs[|pairs| - 1].value]
  }

  /** The override settings of a marker comment. */
  function OverrideSettings(comment: string): map<string, string>
  {
    PairsToMap(ClausePairs(OverrideClauses(comment, 0)))
  }

  /** The visitor's loops: for each clause match, each of its pair matches
      assigns `overrideSettings[key] = value`. */
  method ExtractOverrideSettings(docComment: string) returns (overrideSettings: map<string, string>)
    ensures overrideSettings == OverrideSettings(docComment)
  {
    var clauses := OverrideClauses(docComment, 0);
    overrideSettings := map[];
    for i := 0 to |clauses|
      invariant overrideSettings == PairsToMap(ClausePairs(clauses[..i]))
    {
      ClausePairsPrefix(clauses, i);
      overrideSettings := AssignPairs(overrideSettings, PairMatches(clauses[i], 0), ClausePairs(clauses[..i]));
    }
    assert clauses[..|clauses|] == clauses;
  }

  /** The inner `forEach`: assigns each pair in turn to the dictionary built from `before`. */
  method AssignPairs(start: map<string, string>, pairs: seq<OverridePair>, ghost before: seq<OverridePair>)
    returns (overrideSettings: map<string, string>)
    requires start == PairsToMap(before)
    ensures overrideSettings == PairsToMap(before + pairs)
  {
    overrideSettings := start;
    assert before + pairs[..0] == before;
    for j := 0 to |pairs|
      invariant overrideSettings == PairsToMap(before + pairs[..j])
    {
      PairsToMapSnoc(before + pairs[..j], pairs[j]);
      assert before + pairs[..j + 1] == (before + pairs[..j]) + [pairs[j]];
      overrideSettings := overrideSettings[pairs[j].key := pairs[j].value];
    }
    assert pairs[..|pairs|] == pairs;
  }

  lemma PairsToMapSnoc(pairs: seq<OverridePair>, x: OverridePair)
    ensures PairsToMap(pairs + [x]) == PairsToMap(pairs)[x.key := x.value]
  {
    assert (pairs + [x])[..|pairs|] == pairs;
  }

  lemma ClausePairsPrefix(clauses: seq<string>, i: nat)
    requires i < |clauses|
    ensures ClausePairs(clauses[..i + 1]) == ClausePairs(clauses[..i]) + PairMatches(clauses[i], 0)
  {
    assert clauses[..i + 1][..i] == clauses[..i];
  }

  // ---------------------------------------------------------------- properties

  /** A key is set exactly when some pair carries it. */
  lemma {:induction false} PairsToMapKeys(pairs: seq<OverridePair>, k: string)
    ensures k in PairsToMap(pairs) <==> exists i :: 0 <= i < |pairs| && pairs[i].key == k
  {
    if |pairs| > 0 {
      var init := pairs[..|pairs| - 1];
      PairsToMapKeys(init, k);
      assert forall i :: 0 <= i < |init| ==> init[i] == pairs[i];
    }
  }

  /** A repeated key keeps the value of its last pair. */
  lemma {:induction false} PairsToMapLastWins(pairs: seq<OverridePair>, i: nat)
    requires i < |pairs|
    requires forall j :: i < j < |pairs| ==> pairs[j].key != pairs[i].key
    ensures pairs[i].key in PairsToMap(pairs)
    ensures PairsToMap(pairs)[pairs[i].key] == pairs[i].value
  {
    if i < |pairs| - 1 {
      var init := pairs[..|pairs| - 1];
      assert forall j :: 0 <= j < |init| ==> init[j] == pairs[j];
      PairsToMapLastWins(init, i);
    }
  }

  /** Every entry of the dictionary is one of the pairs. */
  lemma {:induction false} PairsToMapEntry(pairs: seq<OverridePair>, k: string)
    requires k in PairsToMap(pairs)
    ensures exists i :: 0 <= i < |pairs| && pairs[i] == OverridePair(k, PairsToMap(pairs)[k])
  {
    var last := pairs[|pairs| - 1];
    if last.key != k {
      var init := pairs[..|pairs| - 1];
      PairsToMapEntry(init, k);
      var i :| 0 <= i < |init| && init[i] == OverridePair(k, PairsToMap(init)[k]);
      assert pairs[i] == init[i];
    }
  }

  /** Every override key is a word and every value a non-empty run of
      `[\.\w\(\)\s]` characters, so a value never holds a comma. */
  lemma OverrideSettingsShape(comment: string, k: string)
    requires k in OverrideSettings(comment)
    ensures IsKey(k) && IsValue(OverrideSettings(comment)[k])
    ensures ',' !in OverrideSettings(comment)[k]
  {
    var pairs := ClausePairs(OverrideClauses(comment, 0));
    ClausePairsCaptures(OverrideClauses(comment, 0));
    PairsToMapEntry(pairs, k);
    var v := OverrideSettings(comment)[k];
    assert forall j :: 0 <= j < |v| ==> IsValueChar(v[j]);
  }

  lemma {:induction false} NoOpeningNoClauses(s: string, p: nat)
    requires forall q :: !StartsAt(s, q, OverrideOpening)
    ensures OverrideClauses(s, p) == []
    decreases |s| - p
  {
    if p < |s| {
      NoOpeningNoClauses(s, p + 1);
    }
  }

  /** A comment without an `(override:` clause gives no settings. */
  lemma NoClauseNoSettings(comment: string)
    requires forall q :: !StartsAt(comment, q, OverrideOpening)
    ensures OverrideSettings(comment) == map[]
  {
    NoOpeningNoClauses(comment, 0);
  }
}
