/** covertToCamelCase (basic_prompt.js): str.split(' '), each piece cased by
    its position, then joined with ''. Only the space separates pieces, and
    there is no validation: every string converts. */
module BasicPrompt {
  import opened Ascii
  import opened JsString

  /** The callback of the map: the first piece lower-cased; any later piece
      with its first character upper-cased and the rest lower-cased. */
  function CamelPiece(word: seq<char>, index: nat): seq<char>
  {
    if index == 0 then LowerStr(word)
    else UpperStr(CharAt(word, 0)) + LowerStr(Slice(word, 1))
  }

  /** pieces.map(CamelPiece), for pieces that start at position index. */
  function MapPieces(pieces: seq<seq<char>>, index: nat): (r: seq<seq<char>>)
    ensures |r| == |pieces|
  {
    if pieces == [] then [] else [CamelPiece(pieces[0], index)] + MapPieces(pieces[1..], index + 1)
  }

  function CovertToCamelCase(s: seq<char>): seq<char>
  {
    Join(MapPieces(Split(s, ' '), 0), "")
  }

  /** A reference definition in one left-to-right pass: a space is dropped,
      the character right after a space is upper-cased, and every other
      character is lower-cased. */
  function SpaceCamel(s: seq<char>, afterSpace: bool): seq<char>
    decreases |s|
  {
    if s == [] then []
    else if s[0] == ' ' then SpaceCamel(s[1..], true)
    else [if afterSpace then Upper(s[0]) else Lower(s[0])] + SpaceCamel(s[1..], false)
  }

  /** A later piece: charAt(0) of an empty piece is "", so an empty piece (two
      spaces in a row, or a space at either end) gives nothing. */
  lemma LaterPiece(word: seq<char>, index: nat)
    requires index > 0
    ensures CamelPiece(word, index) == if word == [] then [] else [Upper(word[0])] + LowerStr(word[1..])
  {
    if word != [] {
      assert CharAt(word, 0) == [word[0]];
      assert UpperStr([word[0]]) == [Upper(word[0])];
    }
  }

  lemma {:induction false} SpaceCamelLowers(v: seq<char>, rest: seq<char>)
    requires ' ' !in v
    ensures SpaceCamel(v + rest, false) == LowerStr(v) + SpaceCamel(rest, false)
  {
    if v == [] {
      assert v + rest == rest;
    } else {
      assert (v + rest)[0] == v[0];
      assert (v + rest)[1..] == v[1..] + rest;
      SpaceCamelLowers(v[1..], rest);
      LowerStrCons(v);
    }
  }

  /** The pass over a piece without spaces produces what the callback makes of
      it, at a later position exactly when the pass starts after a space. */
  lemma SpaceCamelPiece(w: seq<char>, rest: seq<char>, index: nat)
    requires ' ' !in w
    ensures SpaceCamel(w + rest, index > 0) == CamelPiece(w, index) + SpaceCamel(rest, index > 0 && w == [])
  {
    if w == [] {
      assert w + rest == rest;
      if index > 0 {
        LaterPiece(w, index);
      }
    } else if index == 0 {
      SpaceCamelLowers(w, rest);
    } else {
      assert (w + rest)[0] == w[0];
      assert (w + rest)[1..] == w[1..] + rest;
      SpaceCamelLowers(w[1..], rest);
      LaterPiece(w, index);
    }
  }

  /** A piece, the space that ends it, and the rest. */
  lemma SpaceCamelPieceThenSpace(w: seq<char>, rest: seq<char>, index: nat)
    requires ' ' !in w
    ensures SpaceCamel(w + ([' '] + rest), index > 0) == CamelPiece(w, index) + SpaceCamel(rest, true)
  {
    SpaceCamelPiece(w, [' '] + rest, index);
    assert ([' '] + rest)[1..] == rest;
  }

  lemma MapPiecesCons(p: seq<char>, ps: seq<seq<char>>, index: nat)
    ensures MapPieces([p] + ps, index) == [CamelPiece(p, index)] + MapPieces(ps, index + 1)
  {
    assert ([p] + ps)[1..] == ps;
  }

  /** The pieces from position index on, cased and joined, are the pass over
      the string they were split from. */
  lemma {:induction false} PiecesMatchPass(s: seq<char>, index: nat)
    ensures Join(MapPieces(Split(s, ' '), index), "") == SpaceCamel(s, index > 0)
    decreases |s|
  {
    var i := IndexOf(s, ' ');
    if i == |s| {
      LastPiece(s, index);
    } else {
      var rest := s[i + 1..];
      PiecesMatchPass(rest, index + 1);
      JoinedPiecesStep(s, i, index);
      PassStep(s, i, index);
    }
  }

  /** A string without spaces is one piece. */
  lemma LastPiece(s: seq<char>, index: nat)
    requires IndexOf(s, ' ') == |s|
    ensures Join(MapPieces(Split(s, ' '), index), "") == SpaceCamel(s, index > 0)
  {
    assert ' ' !in s;
    assert Split(s, ' ') == [s];
    assert MapPieces([s], index) == [CamelPiece(s, index)];
    assert s + [] == s;
    SpaceCamelPiece(s, [], index);
  }

  /** The first piece, then the pieces after the first space. */
  lemma JoinedPiecesStep(s: seq<char>, i: nat, index: nat)
    requires i == IndexOf(s, ' ') < |s|
    ensures Join(MapPieces(Split(s, ' '), index), "")
         == CamelPiece(s[..i], index) + Join(MapPieces(Split(s[i + 1..], ' '), index + 1), "")
  {
    var w, rest := s[..i], s[i + 1..];
    SplitStep(s, ' ', i);
    MapPiecesCons(w, Split(rest, ' '), index);
    ConcatCons(CamelPiece(w, index), MapPieces(Split(rest, ' '), index + 1));
  }

  /** The pass over the first piece, then over what follows the first space. */
  lemma PassStep(s: seq<char>, i: nat, index: nat)
    requires i == IndexOf(s, ' ') < |s|
    ensures SpaceCamel(s, index > 0) == CamelPiece(s[..i], index) + SpaceCamel(s[i + 1..], true)
  {
    CutAt(s, i);
    SpaceCamelPieceThenSpace(s[..i], s[i + 1..], index);
  }

  /** covertToCamelCase is the one-pass definition. */
  lemma CamelMatchesPass(s: seq<char>)
    ensures CovertToCamelCase(s) == SpaceCamel(s, false)
  {
    PiecesMatchPass(s, 0);
  }

  lemma {:induction false} PassLength(s: seq<char>, afterSpace: bool)
    ensures |SpaceCamel(s, afterSpace)| == |s| - Count(s, ' ')
    decreases |s|
  {
    if s != [] {
      PassLength(s[1..], s[0] == ' ');
      assert Count(s, ' ') <= |s| by {
        CountBound(s, ' ');
      }
    }
  }

  lemma {:induction false} CountBound(s: seq<char>, c: char)
    ensures Count(s, c) <= |s|
  {
    if s != [] {
      CountBound(s[1..], c);
    }
  }

  lemma {:induction false} PassHasNoSpace(s: seq<char>, afterSpace: bool)
    ensures ' ' !in SpaceCamel(s, afterSpace)
    decreases |s|
  {
    if s != [] {
      PassHasNoSpace(s[1..], s[0] == ' ');
    }
  }

  /** The spaces are dropped and every other character is kept: the output
      has no space and is shorter than the input by the number of spaces. */
  lemma CamelDropsSpaces(s: seq<char>)
    ensures ' ' !in CovertToCamelCase(s)
    ensures |CovertToCamelCase(s)| == |s| - Count(s, ' ')
  {
    CamelMatchesPass(s);
    PassHasNoSpace(s, false);
    PassLength(s, false);
  }

  /** The output starts with the first piece, lower-cased. */
  lemma FirstPieceLowered(s: seq<char>)
    ensures var first := Split(s, ' ')[0];
      |first| <= |CovertToCamelCase(s)| && CovertToCamelCase(s)[..|first|] == LowerStr(first)
  {
    var pieces := Split(s, ' ');
    var cased := MapPieces(pieces, 0);
    assert cased == [LowerStr(pieces[0])] + MapPieces(pieces[1..], 1);
    if |pieces| > 1 {
      ConcatCons(LowerStr(pieces[0]), MapPieces(pieces[1..], 1));
    }
  }

  /** Only the space separates: a string without spaces is only lower-cased,
      hyphens and underscores included. */
  lemma CamelOfSpaceFree(s: seq<char>)
    requires ' ' !in s
    ensures CovertToCamelCase(s) == LowerStr(s)
  {
    CamelMatchesPass(s);
    assert s + [] == s;
    SpaceCamelLowers(s, []);
  }

  /** A leading space makes the first piece empty, so the first word is
      capitalised like a later one. */
  lemma LeadingSpaceCapitalises(w: seq<char>)
    requires w != [] && ' ' !in w
    ensures CovertToCamelCase([' '] + w) == [Upper(w[0])] + LowerStr(w[1..])
  {
    var s := [' '] + w;
    CamelMatchesPass(s);
    assert s[1..] == w;
    assert w + [] == w;
    SpaceCamelPiece(w, [], 1);
    LaterPiece(w, 1);
  }

  // The examples below take their input as a parameter s, and the facts about
  // its literal pieces are worked out apart.

  lemma SumSumSooPieces()
    ensures ' ' !in "sum" && ' ' !in "soo"
    ensures CamelPiece("sum", 0) == "sum"
    ensures CamelPiece("sum", 1) == "Sum"
    ensures CamelPiece("soo", 1) == "Soo"
    ensures "sum" + ("Sum" + "Soo") == "sumSumSoo"
  {
    LaterPiece("sum", 1);
    LaterPiece("soo", 1);
    assert LowerStr("um") == "um" && LowerStr("oo") == "oo";
  }

  lemma SumSumSooSplit(s: seq<char>)
    requires s == "sum sum soo"
    ensures s[..3] == "sum" && s[3] == ' ' && s[4..] == "sum soo"
  {
  }

  lemma SumSumSoo(s: seq<char>)
    requires s == "sum sum soo"
    ensures CovertToCamelCase(s) == "sumSumSoo"
  {
    var w1, rest := s[..3], s[4..];
    CutAt(s, 3);
    SumSumSooSplit(s);
    SumSumSooPieces();
    CamelMatchesPass(s);
    SpaceCamelPieceThenSpace(w1, rest, 0);
    SumSooPass(rest);
  }

  lemma SumSooSplit(s: seq<char>)
    requires s == "sum soo"
    ensures s[..3] == "sum" && s[3] == ' ' && s[4..] == "soo"
  {
  }

  /** The pass over "sum soo" after a space. */
  lemma SumSooPass(s: seq<char>)
    requires s == "sum soo"
    ensures SpaceCamel(s, true) == "Sum" + "Soo"
  {
    var w2, w3 := s[..3], s[4..];
    CutAt(s, 3);
    SumSooSplit(s);
    SumSumSooPieces();
    SpaceCamelPieceThenSpace(w2, w3, 1);
    assert w3 + [] == w3;
    SpaceCamelPiece(w3, [], 1);
  }

  lemma LeadingSpacePieces()
    ensures ' ' !in "sum" && [Upper('s')] + LowerStr("um") == "Sum"
  {
    assert LowerStr("um") == "um";
  }

  lemma LeadingSpaceSplit(s: seq<char>)
    requires s == " sum"
    ensures s == [' '] + s[1..] && s[1..] == "sum" && s[1..][1..] == "um"
  {
  }

  /** " sum" gives "Sum". */
  lemma LeadingSpace(s: seq<char>)
    requires s == " sum"
    ensures CovertToCamelCase(s) == "Sum"
  {
    var w := s[1..];
    LeadingSpaceSplit(s);
    LeadingSpacePieces();
    LeadingSpaceCapitalises(w);
  }

  lemma DoubleSpacePieces()
    ensures CamelPiece("a", 0) == "a" && CamelPiece("", 1) == "" && CamelPiece("b", 1) == "B"
    ensures "a" + ("" + "B") == "aB"
  {
    LaterPiece("b", 1);
  }

  lemma DoubleSpaceSplit(s: seq<char>)
    requires s == "a  b"
    ensures s[..1] == "a" && s[1] == ' ' && s[2..] == " b"
  {
  }

  /** "a  b" gives "aB": the empty piece between the two spaces is dropped. */
  lemma DoubleSpace(s: seq<char>)
    requires s == "a  b"
    ensures CovertToCamelCase(s) == "aB"
  {
    var a, rest := s[..1], s[2..];
    CutAt(s, 1);
    DoubleSpaceSplit(s);
    DoubleSpacePieces();
    CamelMatchesPass(s);
    SpaceCamelPieceThenSpace(a, rest, 0);
    SpaceBPass(rest);
  }

  lemma SpaceBSplit(s: seq<char>)
    requires s == " b"
    ensures s[..0] == "" && s[0] == ' ' && s[1..] == "b"
  {
  }

  /** The pass over " b" after a space: the empty piece, then "b". */
  lemma SpaceBPass(s: seq<char>)
    requires s == " b"
    ensures SpaceCamel(s, true) == "" + "B"
  {
    var e, b := s[..0], s[1..];
    CutAt(s, 0);
    SpaceBSplit(s);
    DoubleSpacePieces();
    SpaceCamelPieceThenSpace(e, b, 1);
    assert b + [] == b;
    SpaceCamelPiece(b, [], 1);
  }

  /** "" splits into [""], which converts to "". */
  lemma EmptyString(s: seq<char>)
    requires s == ""
    ensures CovertToCamelCase(s) == ""
  {
    CamelDropsSpaces(s);
  }
}
