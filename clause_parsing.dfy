/** The completeness direction of the clause recogniser: a clause written the
    way the marker comments write it, `(override: k1 = v1, k2 = v2)`, at the
    end of a comment with no other parenthesis before it, is matched from its
    opening to its closing parenthesis, and the override settings of the
    comment are exactly its settings. */
module ClauseParsing {
  import opened Wrappers
  import opened Text
  import opened Backtrack
  import opened Overrides
  import opened OverrideParsing

  // ---------------------------------------------------------------- one setting

  /** `\w+\s*` over a key `s[a..b]` followed by one space. */
  lemma KeyLeads(s: string, a: nat, b: nat)
    requires a < b && b + 1 < |s| && s[b] == ' ' && s[b + 1] == '='
    requires forall k :: a <= k < b ==> InClass(s[k], WordClass)
    ensures Leads(PatternEnds(s, SettingPattern, a), PatternEnds(s, SettingPattern[2..], b + 1))
  {
    var sp := SettingPattern;
    assert !InClass(s[b], WordClass) && !InClass(s[b + 1], SpaceClass);
    assert sp[1..][1..] == sp[2..];
    RunStep(s, sp, a, b);
    RunStep(s, sp[1..], b, b + 1);
    LeadsTrans(PatternEnds(s, sp, a), PatternEnds(s, sp[1..], b), PatternEnds(s, sp[2..], b + 1));
  }

  /** `=\s*` over `= ` followed by the value. */
  lemma EqualsLeads(s: string, c: nat)
    requires c + 2 < |s| && s[c] == '=' && s[c + 1] == ' ' && !IsWhitespace(s[c + 2])
    ensures Leads(PatternEnds(s, SettingPattern[2..], c), PatternEnds(s, SettingPattern[4..], c + 2))
  {
    var sp := SettingPattern;
    assert !InClass(s[c + 2], SpaceClass);
    assert sp[2..][1..] == sp[3..] && sp[3..][1..] == sp[4..];
    LiteralStep(s, sp[2..], c);
    RunStep(s, sp[3..], c + 1, c + 2);
  }

  /** A written setting: the first candidate for one repetition of the
      setting pattern is the one that takes the key, ` = ` and reaches the
      value. */
  lemma EntryLeads(s: string, p: nat, pair: OverridePair)
    requires EntryAt(s, p, pair) && Writable(pair)
    ensures var b := p + 1 + |pair.key|;
      Leads(SettingEnds(s, p + 1), PatternEnds(s, SettingPattern[4..], b + 3))
  {
    var b := p + 1 + |pair.key|;
    assert Leads(PatternEnds(s, SettingPattern, p + 1), PatternEnds(s, SettingPattern[2..], b + 1))
        && Leads(PatternEnds(s, SettingPattern[2..], b + 1), PatternEnds(s, SettingPattern[4..], b + 3)) by {
      EntryChars(s, p, pair);
      KeyLeads(s, p + 1, b);
      EqualsLeads(s, b + 1);
    }
    LeadsTrans(PatternEnds(s, SettingPattern, p + 1), PatternEnds(s, SettingPattern[2..], b + 1),
               PatternEnds(s, SettingPattern[4..], b + 3));
  }

  /** `[\.\w\(\)\s]+(?:,\s*)?` over a value `s[d..e]` followed by `, `: the
      first end tried is after the space. */
  lemma ValueCommaLeads(s: string, d: nat, e: nat)
    requires d < e && e + 2 < |s| && s[e] == ',' && s[e + 1] == ' ' && !IsWhitespace(s[e + 2])
    requires forall k :: d <= k < e ==> InClass(s[k], ValueClass)
    ensures TriedFirst(PatternEnds(s, SettingPattern[4..], d), e + 2)
  {
    var sp := SettingPattern;
    var g := OptionalGroup(',', SpaceClass);
    assert sp[4..][1..] == [g];
    CommaSpaceClasses(s, e);
    RunStep(s, sp[4..], d, e);
    OptionalTaken(s, g, e, e + 2);
    LeadsTriedFirst(PatternEnds(s, sp[4..], d), PatternEnds(s, [g], e), e + 2);
  }

  lemma CommaSpaceClasses(s: string, e: nat)
    requires e + 2 < |s| && s[e] == ',' && s[e + 1] == ' ' && !IsWhitespace(s[e + 2])
    ensures !InClass(s[e], ValueClass) && InClass(s[e + 1], SpaceClass) && !InClass(s[e + 2], SpaceClass)
  {
  }

  /** The same over the last value, which the class lets run on over the
      closing parenthesis: the first end tried is the end of the text, the
      second the closing parenthesis. */
  lemma ValueCloseLeads(s: string, d: nat)
    requires d + 1 < |s| && s[|s| - 1] == ')'
    requires forall k :: d <= k < |s| ==> InClass(s[k], ValueClass)
    ensures TriedFirstTwo(PatternEnds(s, SettingPattern[4..], d), |s|, |s| - 1)
  {
    var sp := SettingPattern;
    var g := OptionalGroup(',', SpaceClass);
    assert sp[4..][1..] == [g];
    OptionalSkipped(s, g, |s|);
    OptionalSkipped(s, g, |s| - 1);
    RunStepTwo(s, sp[4..], d, |s|);
    LeadsTried(PatternEnds(s, sp[4..], d), [|s|, |s| - 1]);
  }

  /** A setting followed by `, ` and another one: the first repetition tried
      ends at the start of the next key. */
  lemma InnerEntryEnds(s: string, p: nat, pair: OverridePair)
    requires EntryAt(s, p, pair) && Writable(pair)
    requires var e := EntryEnd(p, pair);
      e + 2 < |s| && s[e] == ',' && s[e + 1] == ' ' && !IsWhitespace(s[e + 2])
    ensures TriedFirst(SettingEnds(s, p + 1), EntryEnd(p, pair) + 2)
  {
    var d := p + 4 + |pair.key|;
    var e := EntryEnd(p, pair);
    assert TriedFirst(PatternEnds(s, SettingPattern[4..], d), e + 2) by {
      EntryChars(s, p, pair);
      ValueCommaLeads(s, d, e);
    }
    EntryLeads(s, p, pair);
    LeadsTriedFirst(SettingEnds(s, p + 1), PatternEnds(s, SettingPattern[4..], d), e + 2);
  }

  /** The last setting, followed only by `)`: the first repetition tried ends
      at the end of the text, the second at the closing parenthesis. */
  lemma LastEntryEnds(s: string, p: nat, pair: OverridePair)
    requires EntryAt(s, p, pair) && Writable(pair)
    requires var e := EntryEnd(p, pair); e + 1 == |s| && s[e] == ')'
    ensures TriedFirstTwo(SettingEnds(s, p + 1), |s|, |s| - 1)
  {
    var d := p + 4 + |pair.key|;
    var r := PatternEnds(s, SettingPattern[4..], d);
    assert TriedFirstTwo(r, |s|, |s| - 1) by {
      EntryChars(s, p, pair);
      assert forall k :: d <= k < |s| ==> InClass(s[k], ValueClass);
      ValueCloseLeads(s, d);
    }
    EntryLeads(s, p, pair);
    assert Leads(r, [|s|, |s| - 1]) by {
      assert r[..2] == [|s|, |s| - 1];
    }
    LeadsTrans(SettingEnds(s, p + 1), r, [|s|, |s| - 1]);
    LeadsTried(SettingEnds(s, p + 1), [|s|, |s| - 1]);
  }

  // ---------------------------------------------------------------- the star and the close

  /** Nothing more can match at the end of the text. */
  lemma EndHasNoClose(s: string)
    ensures SettingsThenClose(s, |s|) == None
  {
    assert SettingEnds(s, |s|) == [];
  }

  /** A closing parenthesis that ends the text ends the match. */
  lemma CloseAtEnd(s: string)
    requires |s| > 0 && s[|s| - 1] == ')'
    ensures SettingsThenClose(s, |s| - 1) == Some(|s|)
  {
    RunEndIs(s, |s| - 1, WordClass, |s| - 1);
    assert SettingEnds(s, |s| - 1) == [];
  }

  /** Candidates led by `k`, from which the rest matches. */
  lemma FirstCandidate(s: string, i: nat, cands: seq<nat>, k: nat)
    requires TriedFirst(cands, k) && i < k <= |s| && SettingsThenClose(s, k).Some?
    ensures FirstSettingsThenClose(s, i, cands) == SettingsThenClose(s, k)
  {
  }

  /** Candidates led by the end of the text and the closing parenthesis. */
  lemma LastCandidates(s: string, i: nat, cands: seq<nat>)
    requires i + 1 < |s| && s[|s| - 1] == ')' && TriedFirstTwo(cands, |s|, |s| - 1)
    ensures FirstSettingsThenClose(s, i, cands) == Some(|s|)
  {
    assert cands[1..][0] == cands[1];
    EndHasNoClose(s);
    CloseAtEnd(s);
  }

  /** The star takes one more repetition when the first one tried ends at `k`
      and the rest matches from there. */
  lemma ContinueVia(s: string, i: nat, k: nat)
    requires i < k <= |s| && TriedFirst(SettingEnds(s, i), k) && SettingsThenClose(s, k).Some?
    ensures SettingsThenClose(s, i) == SettingsThenClose(s, k)
  {
    FirstCandidate(s, i, SettingEnds(s, i), k);
  }

  /** The star stops after a last repetition whose first two ends tried are
      the end of the text and the closing parenthesis before it. */
  lemma CloseVia(s: string, i: nat)
    requires i + 1 < |s| && s[|s| - 1] == ')' && TriedFirstTwo(SettingEnds(s, i), |s|, |s| - 1)
    ensures SettingsThenClose(s, i) == Some(|s|)
  {
    LastCandidates(s, i, SettingEnds(s, i));
  }

  /** Where the `j`-th of written settings at `p` starts. */
  function EntryStart(p: nat, pairs: seq<OverridePair>, j: nat): nat
    requires j <= |pairs|
  {
    if j == 0 then p else EntryEnd(EntryStart(p, pairs, j - 1), pairs[j - 1]) + 1
  }

  /** The written settings from the `j`-th on lie at its start. */
  lemma {:induction false} SettingsAtNth(s: string, p: nat, pairs: seq<OverridePair>, j: nat)
    requires SettingsAt(s, p, pairs) && AllWritable(pairs) && j < |pairs|
    ensures SettingsAt(s, EntryStart(p, pairs, j), pairs[j..]) && AllWritable(pairs[j..])
  {
    if j > 0 {
      SettingsAtNth(s, p, pairs, j - 1);
      SettingsAtFirst(s, EntryStart(p, pairs, j - 1), pairs[j - 1..]);
      assert pairs[j - 1..][1..] == pairs[j..];
    }
  }

  /** `ends` gives the ends of one repetition of the setting pattern. The
      steps below take the candidate lists as such a function, so that the
      bookkeeping over the path does not open the pattern up. */
  ghost predicate AreSettingEnds(s: string, ends: nat -> seq<nat>)
  {
    forall i {:trigger ends(i)} :: ends(i) == SettingEnds(s, i)
  }

  /** How the first repetition the star tries from the `j`-th key ends: at
      the next key, or, for the last setting, at the end of the text and then
      at the closing parenthesis. */
  predicate StepLeads(s: string, ends: nat -> seq<nat>, p: nat, pairs: seq<OverridePair>, j: nat)
    requires j < |pairs|
  {
    StepFrom(s, ends, EntryStart(p, pairs, j), pairs[j..])
  }

  predicate StepFrom(s: string, ends: nat -> seq<nat>, q: nat, rest: seq<OverridePair>)
    requires |rest| > 0
  {
    var e := EntryEnd(q, rest[0]);
    if |rest| > 1 then e + 2 <= |s| && TriedFirst(ends(q + 1), e + 2)
    else q + 2 < |s| && s[|s| - 1] == ')' && TriedFirstTwo(ends(q + 1), |s|, |s| - 1)
  }

  /** Written settings with more to follow: the first one is followed by `, `
      and the next key. */
  lemma InnerEntryLayout(s: string, q: nat, rest: seq<OverridePair>)
    requires SettingsAt(s, q, rest) && AllWritable(rest) && |rest| > 1
    ensures var e := EntryEnd(q, rest[0]);
      && EntryAt(s, q, rest[0]) && Writable(rest[0])
      && e + 2 < |s| && s[e] == ',' && s[e + 1] == ' ' && !IsWhitespace(s[e + 2])
  {
    var e := EntryEnd(q, rest[0]);
    SettingsAtFirst(s, q, rest);
    var next := rest[1..];
    assert EntryAt(s, e + 1, next[0]) && Writable(next[0]);
    KeyStarts(s, e + 1, next[0]);
  }

  /** A written setting's key starts with a word character. */
  lemma KeyStarts(s: string, p: nat, pair: OverridePair)
    requires EntryAt(s, p, pair) && Writable(pair)
    ensures p + 1 < |s| && IsWordChar(s[p + 1])
  {
    assert s[p + 1] == pair.key[0];
  }

  /** The last of written settings is followed by the closing parenthesis
      that ends the text. */
  lemma LastEntryLayout(s: string, q: nat, rest: seq<OverridePair>)
    requires SettingsAt(s, q, rest) && AllWritable(rest) && |rest| == 1
    ensures var e := EntryEnd(q, rest[0]);
      && EntryAt(s, q, rest[0]) && Writable(rest[0]) && e + 1 == |s| && s[e] == ')'
  {
    SettingsAtFirst(s, q, rest);
  }

  /** The first repetition tried from a key followed by more settings. */
  lemma InnerStep(s: string, q: nat, rest: seq<OverridePair>)
    requires SettingsAt(s, q, rest) && AllWritable(rest) && |rest| > 1
    ensures EntryEnd(q, rest[0]) + 2 <= |s| && TriedFirst(SettingEnds(s, q + 1), EntryEnd(q, rest[0]) + 2)
  {
    InnerEntryLayout(s, q, rest);
    InnerEntryEnds(s, q, rest[0]);
  }

  /** The first two repetitions tried from the last key. */
  lemma LastStep(s: string, q: nat, rest: seq<OverridePair>)
    requires SettingsAt(s, q, rest) && AllWritable(rest) && |rest| == 1
    ensures q + 2 < |s| && s[|s| - 1] == ')' && TriedFirstTwo(SettingEnds(s, q + 1), |s|, |s| - 1)
  {
    LastEntryLayout(s, q, rest);
    EntryChars(s, q, rest[0]);
    LastEntryEnds(s, q, rest[0]);
  }

  /** The first repetition tried from the key of written settings at `q`. */
  lemma FirstStep(s: string, ends: nat -> seq<nat>, q: nat, rest: seq<OverridePair>)
    requires ends(q + 1) == SettingEnds(s, q + 1)
    requires SettingsAt(s, q, rest) && AllWritable(rest) && |rest| > 0
    ensures StepFrom(s, ends, q, rest)
  {
    if |rest| == 1 {
      LastStep(s, q, rest);
    } else {
      InnerStep(s, q, rest);
    }
  }

  lemma StepLeadsHold(s: string, ends: nat -> seq<nat>, p: nat, pairs: seq<OverridePair>, j: nat)
    requires AreSettingEnds(s, ends)
    requires SettingsAt(s, p, pairs) && AllWritable(pairs) && j < |pairs|
    ensures StepLeads(s, ends, p, pairs, j)
  {
    var q := EntryStart(p, pairs, j);
    assert ends(q + 1) == SettingEnds(s, q + 1);
    SettingsAtNth(s, p, pairs, j);
    FirstStep(s, ends, q, pairs[j..]);
  }

  /** The keys after the `j`-th of written settings: where the star's steps
      from the `j`-th key on end. */
  function NextKeys(p: nat, pairs: seq<OverridePair>, j: nat): seq<nat>
    requires j < |pairs|
    decreases |pairs| - j
  {
    if j + 1 == |pairs| then [] else [EntryStart(p, pairs, j + 1) + 1] + NextKeys(p, pairs, j + 1)
  }

  /** The path the star takes from `i`: the first repetition tried ends at
      each of `ks` in turn, and the last one's first two ends tried are the end
      of the text and the closing parenthesis before it. */
  predicate StarPath(s: string, ends: nat -> seq<nat>, i: nat, ks: seq<nat>)
    decreases |ks|
  {
    if |ks| == 0 then i + 1 < |s| && s[|s| - 1] == ')' && TriedFirstTwo(ends(i), |s|, |s| - 1)
    else i < ks[0] <= |s| && TriedFirst(ends(i), ks[0]) && StarPath(s, ends, ks[0], ks[1..])
  }

  /** The steps from the `j`-th key on form the star's path. */
  lemma {:induction false} StepsPath(s: string, ends: nat -> seq<nat>, p: nat, pairs: seq<OverridePair>, j: nat)
    requires j < |pairs| && forall i :: j <= i < |pairs| ==> StepLeads(s, ends, p, pairs, i)
    ensures StarPath(s, ends, EntryStart(p, pairs, j) + 1, NextKeys(p, pairs, j))
    decreases |pairs| - j
  {
    assert StepLeads(s, ends, p, pairs, j);
    assert pairs[j..][0] == pairs[j] && |pairs[j..]| == |pairs| - j;
    if j + 1 < |pairs| {
      StepsPath(s, ends, p, pairs, j + 1);
      var ks := NextKeys(p, pairs, j);
      assert ks[1..] == NextKeys(p, pairs, j + 1);
    }
  }

  /** Along its path the star takes every repetition, and the closing
      parenthesis ends the match at the end of the text. */
  lemma {:induction false} PathCloses(s: string, ends: nat -> seq<nat>, i: nat, ks: seq<nat>)
    requires AreSettingEnds(s, ends) && StarPath(s, ends, i, ks)
    ensures SettingsThenClose(s, i) == Some(|s|)
    decreases |ks|
  {
    assert ends(i) == SettingEnds(s, i);
    if |ks| == 0 {
      CloseVia(s, i);
    } else {
      PathCloses(s, ends, ks[0], ks[1..]);
      ContinueVia(s, i, ks[0]);
    }
  }

  // ---------------------------------------------------------------- the clause

  /** The clause opening followed by a `\s*` whose first end tried is `k`,
      from which the rest matches. */
  lemma OpeningVia(s: string, p: nat, k: nat)
    requires StartsAt(s, p, OverrideOpening) && p < k <= |s|
    requires TriedFirst(Greedy(s, p + |OverrideOpening|, SpaceClass, 0), k)
    requires SettingsThenClose(s, k).Some?
    ensures OverrideClauseAt(s, p) == SettingsThenClose(s, k)
  {
    FirstCandidate(s, p, Greedy(s, p + |OverrideOpening|, SpaceClass, 0), k);
  }

  /** A clause written `(override: k1 = v1, k2 = v2)` that runs to the end of
      the text is matched from its opening to the end. */
  lemma ClauseMatchesWhole(s: string, p: nat, pairs: seq<OverridePair>)
    requires p <= |s| && s[p..] == ClauseText(pairs) && AllWritable(pairs)
    ensures OverrideClauseAt(s, p) == Some(|s|)
  {
    ClauseLayout(s, p, pairs);
    if |pairs| == 0 {
      EmptyClauseMatches(s, p);
    } else {
      var q := p + |OverrideOpening|;
      StarFromFirstKey(s, q, pairs);
      OpeningSpace(s, q, pairs);
      OpeningVia(s, p, q + 1);
    }
  }

  /** `(override:)` at the end of the text is matched to the end. */
  lemma EmptyClauseMatches(s: string, p: nat)
    requires StartsAt(s, p, OverrideOpening) && SettingsAt(s, p + |OverrideOpening|, [])
    ensures OverrideClauseAt(s, p) == Some(|s|)
  {
    var q := p + |OverrideOpening|;
    assert TriedFirst(Greedy(s, q, SpaceClass, 0), q) by {
      RunEndIs(s, q, SpaceClass, q);
      GreedyLongestFirst(s, q, SpaceClass, 0);
    }
    CloseAtEnd(s);
    OpeningVia(s, p, q);
  }

  /** The star, started at the first key of written settings, takes every
      setting and closes at the end of the text. */
  lemma StarFromFirstKey(s: string, q: nat, pairs: seq<OverridePair>)
    requires SettingsAt(s, q, pairs) && AllWritable(pairs) && |pairs| > 0
    ensures SettingsThenClose(s, q + 1) == Some(|s|)
  {
    var ends := (i: nat) => SettingEnds(s, i);
    assert StarPath(s, ends, q + 1, NextKeys(q, pairs, 0)) by {
      forall j | 0 <= j < |pairs|
        ensures StepLeads(s, ends, q, pairs, j)
      {
        StepLeadsHold(s, ends, q, pairs, j);
      }
      StepsPath(s, ends, q, pairs, 0);
    }
    PathCloses(s, ends, q + 1, NextKeys(q, pairs, 0));
  }

  /** The `\s*` after `(override:` takes the one space before the first key. */
  lemma OpeningSpace(s: string, q: nat, pairs: seq<OverridePair>)
    requires SettingsAt(s, q, pairs) && AllWritable(pairs) && |pairs| > 0
    ensures q + 1 < |s| && TriedFirst(Greedy(s, q, SpaceClass, 0), q + 1)
  {
    SettingsAtFirst(s, q, pairs);
    EntryChars(s, q, pairs[0]);
    RunEndIs(s, q, SpaceClass, q + 1);
    GreedyLongestFirst(s, q, SpaceClass, 0);
  }

  /** The text of a written clause lies as the layout predicates say. */
  lemma ClauseLayout(s: string, p: nat, pairs: seq<OverridePair>)
    requires p <= |s| && s[p..] == ClauseText(pairs)
    ensures StartsAt(s, p, OverrideOpening) && SettingsAt(s, p + |OverrideOpening|, pairs)
  {
    var q := p + |OverrideOpening|;
    var settings := SettingsText(pairs);
    assert s[p..q] == s[p..][..|OverrideOpening|];
    assert s[q..q + |settings|] == s[p..][|OverrideOpening|..];
    SliceSpells(s, q, settings);
    SettingsTextAt(s, q, pairs);
  }

  // ---------------------------------------------------------------- the settings of a comment

  /** No clause match starts where no `(` stands. */
  lemma {:induction false} NoClauseBefore(s: string, q: nat, p: nat)
    requires q <= p <= |s|
    requires forall k :: q <= k < p ==> s[k] != '('
    ensures OverrideClauses(s, q) == OverrideClauses(s, p)
    decreases p - q
  {
    if q < p {
      OpeningParen(s, q);
      NoClauseBefore(s, q + 1, p);
    }
  }

  /** A clause opening starts with `(`. */
  lemma OpeningParen(s: string, q: nat)
    ensures StartsAt(s, q, OverrideOpening) ==> s[q] == '('
  {
    if StartsAt(s, q, OverrideOpening) {
      assert s[q] == s[q..q + |OverrideOpening|][0];
    }
  }

  /** A comment whose only clause match runs from `p`, where the first `(`
      stands, to its end has that one clause. */
  lemma OnlyClauseAt(s: string, p: nat)
    requires p < |s| && OverrideClauseAt(s, p) == Some(|s|)
    requires forall k :: 0 <= k < p ==> s[k] != '('
    ensures OverrideClauses(s, 0) == [s[p..]]
  {
    NoClauseBefore(s, 0, p);
    assert OverrideClauses(s, 0) == OverrideClauses(s, p);
    ClausesFromMatch(s, p, |s|);
    assert OverrideClauses(s, p) == [s[p..|s|]] + OverrideClauses(s, |s|);
    assert OverrideClauses(s, |s|) == [];
    assert s[p..|s|] == s[p..];
  }

  /** A clause match at `p` is the first of the clause matches from `p`. */
  lemma ClausesFromMatch(s: string, p: nat, e: nat)
    requires p < |s| && OverrideClauseAt(s, p) == Some(e)
    ensures OverrideClauses(s, p) == [s[p..e]] + OverrideClauses(s, e)
  {
  }

  /** The only clause match in a comment that ends in a written clause, with
      no `(` before the clause, is that clause. */
  lemma WrittenClauseFound(prefix: string, pairs: seq<OverridePair>)
    requires forall k :: 0 <= k < |prefix| ==> prefix[k] != '('
    requires AllWritable(pairs)
    ensures OverrideClauses(prefix + ClauseText(pairs), 0) == [ClauseText(pairs)]
  {
    var c := ClauseText(pairs);
    var s := prefix + c;
    var p := |prefix|;
    assert s[p..] == c && p < |s|;
    assert forall k :: 0 <= k < p ==> s[k] == prefix[k];
    ClauseMatchesWhole(s, p, pairs);
    OnlyClauseAt(s, p);
  }

  /** The pairs of one clause are its pair matches. */
  lemma OneClausePairs(c: string)
    ensures ClausePairs([c]) == PairMatches(c, 0)
  {
    assert [c][..0] == [];
  }

  /** Such a comment has exactly the clause's settings: each key set to its
      value as written, a later key winning over an earlier one. */
  lemma WrittenClauseSettings(prefix: string, pairs: seq<OverridePair>)
    requires forall k :: 0 <= k < |prefix| ==> prefix[k] != '('
    requires AllWritable(pairs)
    ensures OverrideSettings(prefix + ClauseText(pairs)) == PairsToMap(pairs)
  {
    var c := ClauseText(pairs);
    WrittenClauseFound(prefix, pairs);
    OneClausePairs(c);
    ClausePairsFound(pairs);
  }

  /** A clause with one setting gives a dictionary with that one entry. */
  lemma SingleSetting(prefix: string, key: string, value: string)
    requires forall k :: 0 <= k < |prefix| ==> prefix[k] != '('
    requires Writable(OverridePair(key, value))
    ensures OverrideSettings(prefix + OverrideOpening + " " + key + " = " + value + ")") == map[key := value]
  {
    var pairs := [OverridePair(key, value)];
    assert AllWritable(pairs);
    assert ClauseText(pairs) == OverrideOpening + (" " + key + " = " + value) + ")";
    assert prefix + ClauseText(pairs) == prefix + OverrideOpening + " " + key + " = " + value + ")";
    WrittenClauseSettings(prefix, pairs);
    assert pairs[..0] == [];
  }
}
