/** The completeness direction of the override recognisers: a clause written
    the way the marker comments write it, `(override: k1 = v1, k2 = v2)`, is
    matched in full, each of its settings is captured as written, and the
    dictionary holds exactly those settings. */
module OverrideParsing {
  import opened Wrappers
  import opened Text
  import opened Backtrack
  import opened Overrides

  // ---------------------------------------------------------------- written clauses

  /** One setting as the marker comments write it: ` key = value`. */
  function EntryText(pair: OverridePair): string
  {
    " " + pair.key + " = " + pair.value
  }

  /** The settings of a clause, comma-separated, and the closing parenthesis. */
  function SettingsText(pairs: seq<OverridePair>): string
  {
    if |pairs| == 0 then ")"
    else if |pairs| == 1 then EntryText(pairs[0]) + ")"
    else EntryText(pairs[0]) + "," + SettingsText(pairs[1..])
  }

  /** `(override: k1 = v1, k2 = v2)`. */
  function ClauseText(pairs: seq<OverridePair>): string
  {
    OverrideOpening + SettingsText(pairs)
  }

  /** A setting that can be written this way: a word for its key, and a value
      of the value class that does not start with whitespace (the `\s*` after
      the `=` would take that whitespace). */
  predicate Writable(pair: OverridePair)
  {
    IsKey(pair.key) && IsValue(pair.value) && !IsWhitespace(pair.value[0])
  }

  predicate AllWritable(pairs: seq<OverridePair>)
  {
    forall i :: 0 <= i < |pairs| ==> Writable(pairs[i])
  }

  // ---------------------------------------------------------------- pair steps

  /** `\s*[\),]` succeeds at a `)` or `,` right after the value. */
  lemma CloseAt(m: string, a: nat, b: nat, d: nat, e: nat)
    requires e < |m| && (m[e] == ')' || m[e] == ',')
    ensures PairClose(m, a, b, d, e) == Some(PairMatch(OverridePair(Slice(m, a, b), Slice(m, d, e)), e + 1))
  {
    var f := (g: nat) =>
      if g < |m| && (m[g] == ')' || m[g] == ',')
      then Some(PairMatch(OverridePair(Slice(m, a, b), Slice(m, d, e)), g + 1))
      else None;
    FirstEndWins(m, e, SpaceClass, 0, e, f);
  }

  /** Nothing closes a pair at the end of the text. */
  lemma NoCloseAtEnd(m: string, a: nat, b: nat, d: nat)
    ensures PairClose(m, a, b, d, |m|) == None
  {
    var f := (g: nat) =>
      if g < |m| && (m[g] == ')' || m[g] == ',')
      then Some(PairMatch(OverridePair(Slice(m, a, b), Slice(m, d, |m|)), g + 1))
      else None;
    GreedyLongestFirst(m, |m|, SpaceClass, 0);
    FirstOfIsFirst(Greedy(m, |m|, SpaceClass, 0), f);
  }

  /** A value followed by a comma is captured up to the comma. */
  lemma ValueBeforeComma(m: string, a: nat, b: nat, d: nat, e: nat)
    requires d < e < |m| && m[e] == ','
    requires forall k :: d <= k < e ==> IsValueChar(m[k])
    ensures PairValue(m, a, b, d) == Some(PairMatch(OverridePair(Slice(m, a, b), Slice(m, d, e)), e + 1))
  {
    CloseAt(m, a, b, d, e);
    FirstEndWins(m, d, ValueClass, 1, e, (x: nat) => PairClose(m, a, b, d, x));
  }

  /** A value that runs into the final `)` gives that parenthesis back: the
      greedy value first swallows it, no close follows, and the value one
      character shorter closes on it. */
  lemma ValueBeforeLastClose(m: string, a: nat, b: nat, d: nat)
    requires d + 1 < |m| && m[|m| - 1] == ')'
    requires forall k :: d <= k < |m| - 1 ==> IsValueChar(m[k])
    ensures PairValue(m, a, b, d) == Some(PairMatch(OverridePair(Slice(m, a, b), Slice(m, d, |m| - 1)), |m|))
  {
    CloseAt(m, a, b, d, |m| - 1);
    NoCloseAtEnd(m, a, b, d);
    SecondEndWins(m, d, ValueClass, 1, |m|, (x: nat) => PairClose(m, a, b, d, x));
  }

  /** `\s*` before the value takes the whole run of whitespace. */
  lemma AfterEqualsAt(m: string, a: nat, b: nat, c: nat, d: nat)
    requires c <= d < |m| && !IsWhitespace(m[d])
    requires forall k :: c <= k < d ==> IsWhitespace(m[k])
    requires PairValue(m, a, b, d).Some?
    ensures PairAfterEquals(m, a, b, c) == PairValue(m, a, b, d)
  {
    FirstEndWins(m, c, SpaceClass, 0, d, (x: nat) => PairValue(m, a, b, x));
  }

  /** `\s*=` after the key takes the whole run of whitespace before the `=`. */
  lemma AfterKeyAt(m: string, a: nat, b: nat, c: nat)
    requires b <= c < |m| && m[c] == '='
    requires forall k :: b <= k < c ==> IsWhitespace(m[k])
    requires PairAfterEquals(m, a, b, c + 1).Some?
    ensures PairAfterKey(m, a, b) == PairAfterEquals(m, a, b, c + 1)
  {
    FirstEndWins(m, b, SpaceClass, 0, c,
      (x: nat) => if x < |m| && m[x] == '=' then PairAfterEquals(m, a, b, x + 1) else None);
  }

  /** `(\w+)` captures the whole word. */
  lemma FromKeyAt(m: string, a: nat, b: nat)
    requires a < b <= |m| && (b == |m| || !IsWordChar(m[b]))
    requires forall k :: a <= k < b ==> IsWordChar(m[k])
    requires PairAfterKey(m, a, b).Some?
    ensures PairFromKey(m, a) == PairAfterKey(m, a, b)
  {
    FirstEndWins(m, a, WordClass, 1, b, (x: nat) => PairAfterKey(m, a, x));
  }

  /** The leading `\s*` takes the whole run of whitespace before the key. */
  lemma PairAtFrom(m: string, p: nat, a: nat)
    requires p <= a <= |m| && (a == |m| || !IsWhitespace(m[a]))
    requires forall k :: p <= k < a ==> IsWhitespace(m[k])
    requires PairFromKey(m, a).Some?
    ensures PairAt(m, p) == PairFromKey(m, a)
  {
    FirstEndWins(m, p, SpaceClass, 0, a, (x: nat) => PairFromKey(m, x));
  }

  /** The value half of a setting: after ` = ` at `b`, the value up to `e`
      and the character that closes it. */
  lemma ValueAt(m: string, a: nat, b: nat, e: nat)
    requires b + 3 < e < |m| && m[b + 2] == ' ' && !IsWhitespace(m[b + 3])
    requires forall k :: b + 3 <= k < e ==> IsValueChar(m[k])
    requires m[e] == ',' || (e == |m| - 1 && m[e] == ')')
    ensures PairAfterEquals(m, a, b, b + 2) == Some(PairMatch(OverridePair(Slice(m, a, b), Slice(m, b + 3, e)), e + 1))
  {
    if m[e] == ',' {
      ValueBeforeComma(m, a, b, b + 3, e);
    } else {
      ValueBeforeLastClose(m, a, b, b + 3);
    }
    AfterEqualsAt(m, a, b, b + 2, b + 3);
  }

  /** The key half of a setting: `key =` from `a`, then whatever the value
      half matches. */
  lemma KeyAt(m: string, a: nat, b: nat)
    requires a < b && b + 1 < |m| && m[b] == ' ' && m[b + 1] == '='
    requires forall k :: a <= k < b ==> IsWordChar(m[k])
    requires PairAfterEquals(m, a, b, b + 2).Some?
    ensures PairFromKey(m, a) == PairAfterEquals(m, a, b, b + 2)
  {
    AfterKeyAt(m, a, b, b + 1);
    FromKeyAt(m, a, b);
  }

  /** ` key =` from `p`, then whatever the value half matches. */
  lemma SpaceKeyAt(m: string, p: nat, b: nat)
    requires p + 1 < b && b + 1 < |m| && m[p] == ' ' && m[b] == ' ' && m[b + 1] == '='
    requires forall k :: p + 1 <= k < b ==> IsWordChar(m[k])
    requires PairAfterEquals(m, p + 1, b, b + 2).Some?
    ensures PairAt(m, p) == PairAfterEquals(m, p + 1, b, b + 2)
  {
    KeyAt(m, p + 1, b);
    PairAtFrom(m, p, p + 1);
  }

  /** One setting laid out as ` key = value` from `p`, followed by a comma or
      by the final parenthesis, is one pair match ending after that character. */
  lemma EntryPair(m: string, p: nat, b: nat, e: nat)
    requires p + 1 < b && b + 3 < e < |m|
    requires m[p] == ' ' && m[b] == ' ' && m[b + 1] == '=' && m[b + 2] == ' '
    requires forall k :: p + 1 <= k < b ==> IsWordChar(m[k])
    requires forall k :: b + 3 <= k < e ==> IsValueChar(m[k])
    requires !IsWhitespace(m[b + 3])
    requires m[e] == ',' || (e == |m| - 1 && m[e] == ')')
    ensures PairAt(m, p) == Some(PairMatch(OverridePair(m[p + 1..b], m[b + 3..e]), e + 1))
  {
    ValueAt(m, p + 1, b, e);
    SpaceKeyAt(m, p, b);
  }

  /** A position where no pair can start: it is not whitespace, and the word
      that starts there (if any) is followed by neither `=` nor whitespace. */
  lemma NoEqualsAfterKey(m: string, a: nat, b: nat)
    requires b < |m| && !IsWhitespace(m[b]) && m[b] != '='
    ensures PairAfterKey(m, a, b) == None
  {
    var f := (c: nat) => if c < |m| && m[c] == '=' then PairAfterEquals(m, a, b, c + 1) else None;
    RunEndIs(m, b, SpaceClass, b);
    GreedyLongestFirst(m, b, SpaceClass, 0);
    FirstOfIsFirst(Greedy(m, b, SpaceClass, 0), f);
  }

  lemma NoPairHere(m: string, q: nat, e: nat)
    requires q <= e < |m| && !IsWhitespace(m[q])
    requires forall k :: q <= k < e ==> IsWordChar(m[k])
    requires !IsWordChar(m[e]) && !IsWhitespace(m[e]) && m[e] != '='
    ensures PairAt(m, q) == None
  {
    var g := (b: nat) => PairAfterKey(m, q, b);
    var keys := Greedy(m, q, WordClass, 1);
    RunEndIs(m, q, WordClass, e);
    GreedyLongestFirst(m, q, WordClass, 1);
    forall i | 0 <= i < |keys| ensures g(keys[i]).None? {
      NoEqualsAfterKey(m, q, keys[i]);
    }
    FirstOfIsFirst(keys, g);
    var f := (a: nat) => PairFromKey(m, a);
    RunEndIs(m, q, SpaceClass, q);
    GreedyLongestFirst(m, q, SpaceClass, 0);
    FirstOfIsFirst(Greedy(m, q, SpaceClass, 0), f);
  }

  lemma {:induction false} PairMatchesSkip(m: string, q: nat, p: nat)
    requires q <= p <= |m|
    requires forall k :: q <= k < p ==> PairAt(m, k) == None
    ensures PairMatches(m, q) == PairMatches(m, p)
    decreases p - q
  {
    if q < p {
      PairMatchesSkip(m, q + 1, p);
    }
  }

  // ---------------------------------------------------------------- pairs found

  /** Where a written setting ends: just before the comma or parenthesis that follows it. */
  function EntryEnd(p: nat, pair: OverridePair): nat
  {
    p + 4 + |pair.key| + |pair.value|
  }

  /** ` key = value` lies at `p` in `m`, followed by at least one character. */
  predicate EntryAt(m: string, p: nat, pair: OverridePair)
  {
    var b := p + 1 + |pair.key|;
    && EntryEnd(p, pair) < |m|
    && m[p] == ' ' && m[b] == ' ' && m[b + 1] == '=' && m[b + 2] == ' '
    && Spells(m, p + 1, pair.key) && Spells(m, b + 3, pair.value)
  }

  /** `w` is written in `m` from `i`, character by character. */
  predicate Spells(m: string, i: nat, w: string)
    decreases |w|
  {
    if |w| == 0 then i <= |m| else i < |m| && m[i] == w[0] && Spells(m, i + 1, w[1..])
  }

  lemma {:induction false} SliceSpells(m: string, i: nat, w: string)
    requires i + |w| <= |m| && m[i..i + |w|] == w
    ensures Spells(m, i, w)
    decreases |w|
  {
    if |w| > 0 {
      assert m[i] == m[i..i + |w|][0];
      assert m[i + 1..i + 1 + |w[1..]|] == m[i..i + |w|][1..];
      SliceSpells(m, i + 1, w[1..]);
    }
  }

  lemma {:induction false} SpellsSlice(m: string, i: nat, w: string)
    requires Spells(m, i, w)
    ensures i + |w| <= |m| && m[i..i + |w|] == w
    decreases |w|
  {
    if |w| > 0 {
      SpellsSlice(m, i + 1, w[1..]);
      assert m[i..i + |w|] == [m[i]] + m[i + 1..i + 1 + |w[1..]|];
      assert w == [w[0]] + w[1..];
    }
  }

  /** The written settings `pairs` lie at `p` and run to the end of `m`. */
  predicate SettingsAt(m: string, p: nat, pairs: seq<OverridePair>)
    decreases |pairs|
  {
    if |pairs| == 0 then p + 1 == |m| && m[p] == ')'
    else
      var e := EntryEnd(p, pairs[0]);
      && EntryAt(m, p, pairs[0])
      && if |pairs| == 1 then e + 1 == |m| && m[e] == ')'
         else m[e] == ',' && SettingsAt(m, e + 1, pairs[1..])
  }

  lemma {:induction false} SpellsFits(m: string, i: nat, w: string)
    requires Spells(m, i, w)
    ensures i + |w| <= |m|
    decreases |w|
  {
    if |w| > 0 {
      SpellsFits(m, i + 1, w[1..]);
    }
  }

  /** What spells `x + y` spells `x` and then `y`. */
  lemma {:induction false} SpellsAppend(m: string, i: nat, x: string, y: string)
    requires Spells(m, i, x + y)
    ensures Spells(m, i, x) && Spells(m, i + |x|, y)
    decreases |x|
  {
    if |x| == 0 {
      assert x + y == y;
      SpellsFits(m, i, y);
    } else {
      assert (x + y)[1..] == x[1..] + y;
      SpellsAppend(m, i + 1, x[1..], y);
    }
  }

  /** The characters of ` key = value` spelled at `p`. */
  lemma EntrySpells(m: string, p: nat, pair: OverridePair)
    requires Spells(m, p, EntryText(pair))
    ensures var b := p + 1 + |pair.key|;
      && EntryEnd(p, pair) <= |m|
      && m[p] == ' ' && m[b] == ' ' && m[b + 1] == '=' && m[b + 2] == ' '
      && Spells(m, p + 1, pair.key) && Spells(m, b + 3, pair.value)
  {
    var b := p + 1 + |pair.key|;
    SpellsFits(m, p, EntryText(pair));
    SpellsAppend(m, p, " " + pair.key + " = ", pair.value);
    SpellsAppend(m, p, " " + pair.key, " = ");
    SpellsAppend(m, p, " ", pair.key);
    assert " = "[1..] == "= " && "= "[1..] == " ";
  }

  /** A written setting at `p` has the layout of `EntryAt`, and what follows
      it is spelled right after its end. */
  lemma {:induction false} EntryTextAt(m: string, p: nat, pair: OverridePair, tail: string)
    requires Spells(m, p, EntryText(pair) + tail) && |tail| > 0
    ensures EntryAt(m, p, pair)
    ensures m[EntryEnd(p, pair)] == tail[0] && Spells(m, EntryEnd(p, pair) + 1, tail[1..])
  {
    var e := EntryEnd(p, pair);
    SpellsAppend(m, p, EntryText(pair), tail);
    assert p + |EntryText(pair)| == e;
    assert Spells(m, e, tail);
    EntrySpells(m, p, pair);
  }

  /** The written text of the settings, running to the end of `m`, has the
      layout of `SettingsAt`. */
  lemma {:induction false} SettingsTextAt(m: string, p: nat, pairs: seq<OverridePair>)
    requires Spells(m, p, SettingsText(pairs)) && p + |SettingsText(pairs)| == |m|
    ensures SettingsAt(m, p, pairs)
    decreases |pairs|
  {
    if |pairs| > 0 {
      var e := EntryEnd(p, pairs[0]);
      var tail := SettingsTail(pairs);
      EntryTextAt(m, p, pairs[0], tail);
      if |pairs| > 1 {
        SettingsTextAt(m, e + 1, pairs[1..]);
        SettingsAtCons(m, p, pairs);
      }
    }
  }

  lemma SettingsAtCons(m: string, p: nat, pairs: seq<OverridePair>)
    requires |pairs| > 1 && EntryAt(m, p, pairs[0])
    requires var e := EntryEnd(p, pairs[0]); m[e] == ',' && SettingsAt(m, e + 1, pairs[1..])
    ensures SettingsAt(m, p, pairs)
  {
  }

  /** What follows the first written setting. */
  function SettingsTail(pairs: seq<OverridePair>): (r: string)
    requires |pairs| > 0
    ensures |pairs| == 1 ==> r == ")"
    ensures |pairs| > 1 ==> |r| > 0 && r[0] == ',' && r[1..] == SettingsText(pairs[1..])
    ensures SettingsText(pairs) == EntryText(pairs[0]) + r
  {
    if |pairs| == 1 then ")" else "," + SettingsText(pairs[1..])
  }

  /** The characters of a writable setting laid out at `p`, in the form the
      recogniser steps take them. */
  lemma EntryChars(m: string, p: nat, pair: OverridePair)
    requires EntryAt(m, p, pair) && Writable(pair)
    ensures var b := p + 1 + |pair.key|; var e := EntryEnd(p, pair);
      && (forall k :: p + 1 <= k < b ==> IsWordChar(m[k]))
      && (forall k :: b + 3 <= k < e ==> IsValueChar(m[k]))
      && !IsWhitespace(m[b + 3])
      && m[p + 1..b] == pair.key && m[b + 3..e] == pair.value
  {
    var b := p + 1 + |pair.key|;
    var e := EntryEnd(p, pair);
    SpellsSlice(m, p + 1, pair.key);
    SpellsSlice(m, b + 3, pair.value);
    forall k | p + 1 <= k < b ensures IsWordChar(m[k]) {
      assert m[k] == m[p + 1..b][k - p - 1];
    }
    forall k | b + 3 <= k < e ensures IsValueChar(m[k]) {
      assert m[k] == m[b + 3..e][k - b - 3];
    }
    assert m[b + 3] == m[b + 3..e][0];
  }

  /** The pair pattern captures a written setting exactly, and the match ends
      after the comma or parenthesis that follows it. */
  lemma EntryFound(m: string, p: nat, pair: OverridePair)
    requires EntryAt(m, p, pair) && Writable(pair)
    requires var e := EntryEnd(p, pair); m[e] == ',' || (e + 1 == |m| && m[e] == ')')
    ensures PairAt(m, p) == Some(PairMatch(pair, EntryEnd(p, pair) + 1))
  {
    EntryChars(m, p, pair);
    EntryPair(m, p, p + 1 + |pair.key|, EntryEnd(p, pair));
  }

  /** A match at `p` is the first of the matches from `p`. */
  lemma PairMatchesStep(m: string, p: nat, pair: OverridePair, end: nat)
    requires PairAt(m, p) == Some(PairMatch(pair, end))
    ensures PairMatches(m, p) == [pair] + PairMatches(m, end)
  {
    assert p < |m|;
  }

  /** Nothing matches in the closing parenthesis alone. */
  lemma CloseHasNoPair(m: string, p: nat)
    requires p + 1 == |m| && m[p] == ')'
    ensures PairMatches(m, p) == []
  {
    NoPairHere(m, p, p);
    PairMatchesSkip(m, p, p + 1);
  }

  /** The first of written settings, what closes it, and where the rest lie. */
  lemma SettingsAtFirst(m: string, p: nat, pairs: seq<OverridePair>)
    requires SettingsAt(m, p, pairs) && AllWritable(pairs) && |pairs| > 0
    ensures var e := EntryEnd(p, pairs[0]);
      && EntryAt(m, p, pairs[0]) && Writable(pairs[0])
      && (m[e] == ',' || (e + 1 == |m| && m[e] == ')'))
      && (|pairs| > 1 ==> SettingsAt(m, e + 1, pairs[1..]) && AllWritable(pairs[1..]))
  {
    if |pairs| > 1 {
      assert forall i :: 0 <= i < |pairs[1..]| ==> pairs[1..][i] == pairs[i + 1];
    }
  }

  /** The first pair match in written settings is the first setting. */
  lemma FirstPairFound(m: string, p: nat, pairs: seq<OverridePair>)
    requires SettingsAt(m, p, pairs) && AllWritable(pairs) && |pairs| > 0
    ensures PairMatches(m, p) == [pairs[0]] + PairMatches(m, EntryEnd(p, pairs[0]) + 1)
  {
    var next := EntryEnd(p, pairs[0]) + 1;
    assert PairAt(m, p) == Some(PairMatch(pairs[0], next)) by {
      SettingsAtFirst(m, p, pairs);
      EntryFound(m, p, pairs[0]);
    }
    PairMatchesStep(m, p, pairs[0], next);
  }

  /** The pair matches from the start of written settings are those settings. */
  lemma {:induction false} PairsFound(m: string, p: nat, pairs: seq<OverridePair>)
    requires SettingsAt(m, p, pairs) && AllWritable(pairs)
    ensures PairMatches(m, p) == pairs
    decreases |pairs|
  {
    if |pairs| == 0 {
      CloseHasNoPair(m, p);
    } else {
      var next := EntryEnd(p, pairs[0]) + 1;
      assert PairMatches(m, next) == pairs[1..] by {
        SettingsAtFirst(m, p, pairs);
        if |pairs| > 1 {
          PairsFound(m, next, pairs[1..]);
        }
      }
      FirstPairFound(m, p, pairs);
      assert pairs == [pairs[0]] + pairs[1..];
    }
  }

  /** No pair starts inside `(override:`. */
  lemma OpeningHasNoPair(m: string)
    requires |m| > |OverrideOpening| && StartsAt(m, 0, OverrideOpening)
    ensures PairMatches(m, 0) == PairMatches(m, |OverrideOpening|)
  {
    assert forall k :: 0 <= k < 10 ==> m[k] == OverrideOpening[k];
    forall q | 0 <= q < 10 ensures PairAt(m, q) == None {
      if q == 0 || q == 9 {
        NoPairHere(m, q, q);
      } else {
        NoPairHere(m, q, 9);
      }
    }
    PairMatchesSkip(m, 0, 10);
  }

  /** The pairs of a written clause are its settings, in order. */
  lemma ClausePairsFound(pairs: seq<OverridePair>)
    requires AllWritable(pairs)
    ensures PairMatches(ClauseText(pairs), 0) == pairs
  {
    var m := ClauseText(pairs);
    assert m[..10] == OverrideOpening;
    OpeningHasNoPair(m);
    var settings := SettingsText(pairs);
    assert m[10..10 + |settings|] == settings;
    SliceSpells(m, 10, settings);
    SettingsTextAt(m, 10, pairs);
    PairsFound(m, 10, pairs);
  }
}
