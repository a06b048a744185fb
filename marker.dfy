/** Recognition of the marker comment: the fixed pattern
    `^///\s?(?:@fixturable|@fixtureable)\s?(\(.*?\))?$` of
    FixturableStructVisitor, and the choice of the comment that marks a struct. */
module Marker {
  import opened Wrappers
  import opened Text
  import opened Syntax

  const Fixturable: string := "@fixturable"
  const Fixtureable: string := "@fixtureable"

  /** How many characters `\s?` consumes at `i`. */
  function OptionalSpace(s: string, i: nat): nat
  {
    if i < |s| && IsWhitespace(s[i]) then 1 else 0
  }

  /** Where the keyword alternation ends when one of the two spellings starts at `i`. */
  function KeywordEnd(s: string, i: nat): Option<nat>
  {
    if StartsAt(s, i, Fixturable) then Some(i + |Fixturable|)
    else if StartsAt(s, i, Fixtureable) then Some(i + |Fixtureable|)
    else None
  }

  /** `(\(.*?\))?$`: nothing, or one parenthesised group of non-newline characters ending the line. */
  predicate IsClauseTail(t: string)
  {
    t == [] || (|t| >= 2 && t[0] == '(' && t[|t| - 1] == ')'
                && forall k :: 1 <= k < |t| - 1 ==> !IsNewline(t[k]))
  }

  /** The recogniser: a doc comment contains the marker pattern. The pattern is
      anchored at both ends, so containing it means matching all of it; each
      `\s?` has only one way to succeed, because a keyword starts with `@` and
      a clause with `(`. */
  predicate IsMarkerComment(s: string)
  {
    && |s| >= 3 && s[..3] == "///"
    && var i := 3 + OptionalSpace(s, 3);
       match KeywordEnd(s, i)
       case None => false
       case Some(k) =>
         var m := k + OptionalSpace(s, k);
         m <= |s| && IsClauseTail(s[m..])
  }

  /** The pattern read as a grammar: `s` splits into its five parts. */
  ghost predicate MarkerShape(s: string, w1: string, keyword: string, w2: string, tail: string)
  {
    && |w1| <= 1 && AllChars(w1, IsWhitespace)
    && (keyword == Fixturable || keyword == Fixtureable)
    && |w2| <= 1 && AllChars(w2, IsWhitespace)
    && IsClauseTail(tail)
    && s == "///" + w1 + keyword + w2 + tail
  }

  ghost predicate MatchesMarkerPattern(s: string)
  {
    exists w1, keyword, w2, tail :: MarkerShape(s, w1, keyword, w2, tail)
  }

  /** `\s?` consumes exactly the optional whitespace `w` in front of a part that
      does not begin with whitespace. */
  lemma OptionalSpaceIs(s: string, i: nat, w: string, rest: string)
    requires i <= |s| && s[i..] == w + rest
    requires |w| <= 1 && AllChars(w, IsWhitespace)
    requires |rest| == 0 || !IsWhitespace(rest[0])
    ensures OptionalSpace(s, i) == |w|
  {
    if |w| == 1 {
      assert s[i] == w[0];
    } else if i < |s| {
      assert s[i] == rest[0];
    }
  }

  lemma KeywordEndIs(s: string, i: nat, keyword: string, rest: string)
    requires i <= |s| && s[i..] == keyword + rest
    requires keyword == Fixturable || keyword == Fixtureable
    ensures KeywordEnd(s, i) == Some(i + |keyword|)
  {
    assert s[i..i + |keyword|] == keyword;
    if keyword == Fixtureable {
      assert s[i + 7] == 'e';
    }
  }

  /** The suffixes of `"///" + w1 + keyword + w2 + tail` after each part. */
  lemma PartSuffixes(s: string, w1: string, keyword: string, w2: string, tail: string)
    requires s == "///" + w1 + keyword + w2 + tail
    ensures s[..3] == "///"
    ensures s[3..] == w1 + (keyword + w2 + tail)
    ensures s[3 + |w1|..] == keyword + (w2 + tail)
    ensures s[3 + |w1| + |keyword|..] == w2 + tail
    ensures s[3 + |w1| + |keyword| + |w2|..] == tail
  {
    assert s == "///" + (w1 + (keyword + (w2 + tail)));
  }

  /** A string is its first three characters followed by the four slices between the cut points. */
  lemma FiveParts(s: string, i: nat, k: nat, m: nat)
    requires 3 <= i <= k <= m <= |s|
    ensures s == s[..3] + s[3..i] + s[i..k] + s[k..m] + s[m..]
  {
  }

  lemma ShapeAccepted(s: string, w1: string, keyword: string, w2: string, tail: string)
    requires MarkerShape(s, w1, keyword, w2, tail)
    ensures IsMarkerComment(s)
  {
    var i := 3 + |w1|;
    var k := i + |keyword|;
    var m := k + |w2|;
    PartSuffixes(s, w1, keyword, w2, tail);
    assert (keyword + w2 + tail)[0] == '@';
    OptionalSpaceIs(s, 3, w1, keyword + w2 + tail);
    KeywordEndIs(s, i, keyword, w2 + tail);
    assert |tail| == 0 || tail[0] == '(';
    OptionalSpaceIs(s, k, w2, tail);
    assert m <= |s| && IsClauseTail(s[m..]);
  }

  lemma AcceptedHasShape(s: string)
    requires IsMarkerComment(s)
    ensures MatchesMarkerPattern(s)
  {
    var i := 3 + OptionalSpace(s, 3);
    var k := KeywordEnd(s, i).value;
    var m := k + OptionalSpace(s, k);
    var w1, keyword, w2, tail := s[3..i], s[i..k], s[k..m], s[m..];
    assert AllChars(w1, IsWhitespace) by {
      if |w1| == 1 { assert w1[0] == s[3]; }
    }
    assert AllChars(w2, IsWhitespace) by {
      if |w2| == 1 { assert w2[0] == s[k]; }
    }
    assert keyword == Fixturable || keyword == Fixtureable;
    FiveParts(s, i, k, m);
    assert MarkerShape(s, w1, keyword, w2, tail);
  }

  /** Either spelling, directly after `///` or after one space, with or
      without one space after it, followed by nothing or by one parenthesised
      group, is a marker. */
  lemma MarkerForms(keyword: string, w1: string, w2: string, clause: string)
    requires keyword == Fixturable || keyword == Fixtureable
    requires w1 == "" || w1 == " "
    requires w2 == "" || w2 == " "
    requires IsClauseTail(clause)
    ensures IsMarkerComment("///" + w1 + keyword + w2 + clause)
  {
    assert AllChars(w1, IsWhitespace) && AllChars(w2, IsWhitespace);
    ShapeAccepted("///" + w1 + keyword + w2 + clause, w1, keyword, w2, clause);
  }

  /** The recogniser accepts exactly the comments the marker pattern matches. */
  lemma MarkerRecognised(s: string)
    ensures IsMarkerComment(s) <==> MatchesMarkerPattern(s)
  {
    if IsMarkerComment(s) {
      AcceptedHasShape(s);
    }
    if MatchesMarkerPattern(s) {
      var w1, keyword, w2, tail :| MarkerShape(s, w1, keyword, w2, tail);
      ShapeAccepted(s, w1, keyword, w2, tail);
    }
  }

  predicate IsMarkerPiece(piece: TriviaPiece)
  {
    piece.DocLineComment? && IsMarkerComment(piece.comment)
  }

  /** The `docLineComment` texts of the leading trivia, filtered to the first
      one containing the marker pattern. */
  function FirstMarkerComment(pieces: seq<TriviaPiece>): Option<string>
  {
    if |pieces| == 0 then None
    else if IsMarkerPiece(pieces[0]) then Some(pieces[0].comment)
    else FirstMarkerComment(pieces[1..])
  }

  /** The marker comment found is absent exactly when no doc line comment is a
      marker, and otherwise is the text of the first one that is. */
  lemma {:induction false} FirstMarkerCommentIsFirst(pieces: seq<TriviaPiece>)
    ensures var r := FirstMarkerComment(pieces);
      && (r.None? <==> forall i :: 0 <= i < |pieces| ==> !IsMarkerPiece(pieces[i]))
      && (r.Some? ==> exists i :: 0 <= i < |pieces| && pieces[i] == DocLineComment(r.value)
                              && IsMarkerComment(r.value)
                              && forall j :: 0 <= j < i ==> !IsMarkerPiece(pieces[j]))
  {
    if |pieces| > 0 && !IsMarkerPiece(pieces[0]) {
      FirstMarkerCommentIsFirst(pieces[1..]);
      assert forall i :: 1 <= i < |pieces| ==> pieces[i] == pieces[1..][i - 1];
      var r := FirstMarkerComment(pieces);
      if r.Some? {
        var i :| 0 <= i < |pieces[1..]| && pieces[1..][i] == DocLineComment(r.value)
                 && IsMarkerComment(r.value)
                 && forall j :: 0 <= j < i ==> !IsMarkerPiece(pieces[1..][j]);
        assert pieces[i + 1] == DocLineComment(r.value);
      }
    } else if |pieces| > 0 {
      assert pieces[0] == DocLineComment(pieces[0].comment);
    }
  }
}
