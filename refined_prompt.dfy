/** toCamelCase and toDotCase (refined_prompt.js). Both run the same guard
    clauses (null or undefined, not a string, a character outside
    [a-zA-Z0-9\s\-_], no word), split the trimmed input at runs of
    separators, drop empty pieces, and then case and join the words. */
module RefinedPrompt {
  import opened Ascii
  import opened JsString

  /** The argument, as far as the guard clauses can tell values apart:
      null, undefined, a string, or any other value. */
  datatype JsValue = Null | Undefined | Str(s: seq<char>) | Other

  /** One variant per message the utilities throw. */
  datatype CaseError = NullOrUndefined | NotAString | InvalidCharacters | NoWords

  datatype Result<T> = Ok(value: T) | Err(error: CaseError)

  function Message(e: CaseError): string
  {
    match e
    case NullOrUndefined => "Input cannot be null or undefined"
    case NotAString => "Input must be a string"
    case InvalidCharacters => "Input contains invalid characters"
    case NoWords => "Input must contain at least one word"
  }

  /** Each error has its own message, so the message tells the caller which
      guard clause refused the input. */
  lemma MessagesDistinct(e1: CaseError, e2: CaseError)
    ensures Message(e1) == Message(e2) <==> e1 == e2
  {
    if e1 != e2 {
      assert Message(e1)[7] != Message(e2)[7] || |Message(e1)| != |Message(e2)|;
    }
  }

  /** The class [\s\-_] the input is split on. */
  predicate IsSeparator(c: char) { IsJsSpace(c) || c == '-' || c == '_' }

  /** The class [a-zA-Z0-9\s\-_]. */
  predicate IsAllowed(c: char) { IsAlphaNumeric(c) || IsSeparator(c) }

  /** /^[a-zA-Z0-9\s\-_]+$/.test(s): at least one character, all allowed. */
  predicate MatchesCharClass(s: seq<char>)
  {
    |s| > 0 && forall i :: 0 <= i < |s| ==> IsAllowed(s[i])
  }

  predicate AllSeparators(s: seq<char>) { forall i :: 0 <= i < |s| ==> IsSeparator(s[i]) }

  predicate SeparatorFree(s: seq<char>) { forall i :: 0 <= i < |s| ==> !IsSeparator(s[i]) }

  // ---------------------------------------------------------------------------
  // str.trim()

  /** Number of white-space characters s starts with. */
  function LeadingSpaces(s: seq<char>): (n: nat)
    ensures n <= |s|
    ensures forall k :: 0 <= k < n ==> IsJsSpace(s[k])
    ensures n < |s| ==> !IsJsSpace(s[n])
  {
    if s != [] && IsJsSpace(s[0]) then 1 + LeadingSpaces(s[1..]) else 0
  }

  /** Number of white-space characters s ends with. */
  function TrailingSpaces(s: seq<char>): (n: nat)
    ensures n <= |s|
    ensures forall k :: |s| - n <= k < |s| ==> IsJsSpace(s[k])
    ensures n < |s| ==> !IsJsSpace(s[|s| - 1 - n])
  {
    if s != [] && IsJsSpace(s[|s| - 1]) then 1 + TrailingSpaces(s[..|s| - 1]) else 0
  }

  /** s without its leading white space. */
  function TrimStart(s: seq<char>): (r: seq<char>)
    ensures |r| <= |s| && r == s[|s| - |r|..]
    ensures forall i :: 0 <= i < |s| - |r| ==> IsJsSpace(s[i])
    ensures r != [] ==> !IsJsSpace(r[0])
  {
    s[LeadingSpaces(s)..]
  }

  /** s without its trailing white space. */
  function TrimEnd(s: seq<char>): (r: seq<char>)
    ensures |r| <= |s| && r == s[..|r|]
    ensures forall i :: |r| <= i < |s| ==> IsJsSpace(s[i])
    ensures r != [] ==> !IsJsSpace(r[|r| - 1])
  {
    s[..|s| - TrailingSpaces(s)]
  }

  function Trim(s: seq<char>): seq<char>
  {
    TrimEnd(TrimStart(s))
  }

  // ---------------------------------------------------------------------------
  // .split(/[\s\-_]+/) and .filter(word => word.length > 0)

  /** Position of the first separator of s, or |s|. */
  function SeparatorIndex(s: seq<char>): (i: nat)
    ensures i <= |s|
    ensures forall k :: 0 <= k < i ==> !IsSeparator(s[k])
    ensures i < |s| ==> IsSeparator(s[i])
  {
    if s == [] || IsSeparator(s[0]) then 0 else 1 + SeparatorIndex(s[1..])
  }

  /** Length of the run of separators that s starts with. */
  function SeparatorRunLength(s: seq<char>): (n: nat)
    ensures n <= |s|
    ensures forall k :: 0 <= k < n ==> IsSeparator(s[k])
    ensures n < |s| ==> !IsSeparator(s[n])
  {
    if s != [] && IsSeparator(s[0]) then 1 + SeparatorRunLength(s[1..]) else 0
  }

  /** s.split(/[\s\-_]+/): the regular expression matches a maximal run of
      separators, so s is cut at each such run; a run at either end leaves an
      empty piece there, and "" splits into [""]. */
  function SplitOnSeparatorRuns(s: seq<char>): seq<seq<char>>
    decreases |s|
  {
    var i := SeparatorIndex(s);
    if i == |s| then [s]
    else [s[..i]] + SplitOnSeparatorRuns(s[i + SeparatorRunLength(s[i..])..])
  }

  /** pieces.filter(word => word.length > 0) */
  function KeepNonEmpty(pieces: seq<seq<char>>): seq<seq<char>>
  {
    if pieces == [] then []
    else if pieces[0] == [] then KeepNonEmpty(pieces[1..])
    else [pieces[0]] + KeepNonEmpty(pieces[1..])
  }

  /** Split at separator runs, then drop the empty pieces. */
  function SplitWords(s: seq<char>): seq<seq<char>>
  {
    KeepNonEmpty(SplitOnSeparatorRuns(s))
  }

  /** The words of the input: str.trim().split(/[\s\-_]+/).filter(...). */
  function Words(s: seq<char>): seq<seq<char>>
  {
    SplitWords(Trim(s))
  }

  // ---------------------------------------------------------------------------
  // The guard clauses and the two conversions

  /** The validation both conversions run, in the order they run it; on
      success, the words. */
  function Validate(input: JsValue): Result<seq<seq<char>>>
  {
    match input
    case Null => Err(NullOrUndefined)
    case Undefined => Err(NullOrUndefined)
    case Other => Err(NotAString)
    case Str(s) =>
      if !MatchesCharClass(s) then Err(InvalidCharacters)
      else
        var words := Words(s);
        if |words| == 0 then Err(NoWords) else Ok(words)
  }

  /** The callback of toCamelCase's map: the word lower-cased, and for every
      word but the first, its first character upper-cased. */
  function CamelWord(word: seq<char>, index: nat): seq<char>
  {
    var lowercased := LowerStr(word);
    if index == 0 then lowercased
    else UpperStr(CharAt(lowercased, 0)) + Slice(lowercased, 1)
  }

  /** words.map(CamelWord), for words that start at position index. */
  function CamelWords(words: seq<seq<char>>, index: nat): (r: seq<seq<char>>)
    ensures |r| == |words|
  {
    if words == [] then [] else [CamelWord(words[0], index)] + CamelWords(words[1..], index + 1)
  }

  /** words.map(word => word.toLowerCase()) */
  function LowerWords(words: seq<seq<char>>): (r: seq<seq<char>>)
    ensures |r| == |words|
  {
    if words == [] then [] else [LowerStr(words[0])] + LowerWords(words[1..])
  }

  function ToCamelCase(input: JsValue): Result<seq<char>>
  {
    match Validate(input)
    case Err(e) => Err(e)
    case Ok(words) => Ok(Join(CamelWords(words, 0), ""))
  }

  function ToDotCase(input: JsValue): Result<seq<char>>
  {
    match Validate(input)
    case Err(e) => Err(e)
    case Ok(words) => Ok(Join(LowerWords(words), "."))
  }

  // ---------------------------------------------------------------------------
  // How the splitting behaves

  lemma {:induction false} RunLengthAfterSeparators(p: seq<char>, x: seq<char>)
    requires AllSeparators(p)
    ensures SeparatorRunLength(p + x) == |p| + SeparatorRunLength(x)
  {
    if p == [] {
      assert p + x == x;
    } else {
      assert (p + x)[1..] == p[1..] + x;
      RunLengthAfterSeparators(p[1..], x);
    }
  }

  lemma {:induction false} SeparatorIndexAfterWord(w: seq<char>, y: seq<char>)
    requires SeparatorFree(w)
    requires y == [] || IsSeparator(y[0])
    ensures SeparatorIndex(w + y) == |w|
  {
    if w == [] {
      assert w + y == y;
    } else {
      assert (w + y)[1..] == w[1..] + y;
      SeparatorIndexAfterWord(w[1..], y);
    }
  }

  lemma SplitWordsOfEmpty()
    ensures SplitWords([]) == []
  {
    var pieces: seq<seq<char>> := [[]];
    assert SplitOnSeparatorRuns([]) == pieces;
    assert pieces[1..] == [];
  }

  /** One step of the split: the piece before the first separator, then the
      split of what follows that separator's run. */
  lemma RunSplitStep(s: seq<char>, i: nat, n: nat)
    requires i == SeparatorIndex(s) < |s| && n == SeparatorRunLength(s[i..])
    ensures SplitOnSeparatorRuns(s) == [s[..i]] + SplitOnSeparatorRuns(s[i + n..])
  {
  }

  /** One step of the filter. */
  lemma KeepStep(x: seq<char>, rest: seq<seq<char>>)
    ensures KeepNonEmpty([x] + rest) == (if x == [] then [] else [x]) + KeepNonEmpty(rest)
  {
    assert ([x] + rest)[1..] == rest;
  }

  /** A separator run at the start of s leaves an empty piece, which the
      filter drops. */
  lemma SplitWordsSkipsRun(s: seq<char>)
    requires s != [] && IsSeparator(s[0])
    ensures SplitWords(s) == SplitWords(s[SeparatorRunLength(s)..])
  {
    assert s[0..] == s;
    RunSplitStep(s, 0, SeparatorRunLength(s));
    KeepStep(s[..0], SplitOnSeparatorRuns(s[SeparatorRunLength(s)..]));
  }

  /** A run of separators in front changes no word. */
  lemma LeadingSeparatorsIgnored(p: seq<char>, x: seq<char>)
    requires AllSeparators(p)
    ensures SplitWords(p + x) == SplitWords(x)
  {
    if p == [] {
      assert p + x == x;
    } else {
      var n := SeparatorRunLength(x);
      var t := x[n..];
      RunLengthAfterSeparators(p, x);
      DropAfter(p, x, n);
      SkipRun(p + x, p[0], |p| + n, t);
      if n == 0 {
        assert t == x;
      } else {
        SkipRun(x, x[0], n, t);
      }
    }
  }

  lemma DropAfter(p: seq<char>, x: seq<char>, n: nat)
    requires n <= |x|
    ensures (p + x)[|p| + n..] == x[n..]
  {
  }

  /** SplitWordsSkipsRun with the run's length and what follows it named. */
  lemma SkipRun(s: seq<char>, c: char, m: nat, t: seq<char>)
    requires s != [] && s[0] == c && IsSeparator(c)
    requires SeparatorRunLength(s) == m <= |s| && s[m..] == t
    ensures SplitWords(s) == SplitWords(t)
  {
    SplitWordsSkipsRun(s);
  }

  /** A word followed by nothing or by a separator is the first word. */
  lemma WordThenSeparator(w: seq<char>, y: seq<char>)
    requires w != [] && SeparatorFree(w)
    requires y == [] || IsSeparator(y[0])
    ensures SplitWords(w + y) == [w] + SplitWords(y)
  {
    SeparatorIndexAfterWord(w, y);
    if y == [] {
      assert w + y == w;
      WordAlone(w);
      SplitWordsOfEmpty();
    } else {
      WordThenRun(w, y);
      SplitWordsSkipsRun(y);
    }
  }

  lemma WordAlone(w: seq<char>)
    requires w != [] && SeparatorIndex(w) == |w|
    ensures SplitWords(w) == [w]
  {
    var pieces := [w];
    assert SplitOnSeparatorRuns(w) == pieces;
    assert pieces[0] != [] && pieces[1..] == [];
    assert KeepNonEmpty(pieces) == [w] + KeepNonEmpty([]);
  }

  lemma WordThenRun(w: seq<char>, y: seq<char>)
    requires w != [] && y != [] && SeparatorIndex(w + y) == |w|
    ensures SplitWords(w + y) == [w] + SplitWords(y[SeparatorRunLength(y)..])
  {
    var s := w + y;
    assert s[..|w|] == w && s[|w|..] == y;
    SplitStepAt(s, w, y);
    KeepStep(w, SplitOnSeparatorRuns(y[SeparatorRunLength(y)..]));
  }

  lemma SplitStepAt(s: seq<char>, w: seq<char>, y: seq<char>)
    requires SeparatorIndex(s) == |w| < |s| && s[..|w|] == w && s[|w|..] == y
    ensures SplitOnSeparatorRuns(s) == [w] + SplitOnSeparatorRuns(y[SeparatorRunLength(y)..])
  {
    assert s[|w| + SeparatorRunLength(y)..] == y[SeparatorRunLength(y)..];
  }

  /** A run of separators at the end changes no word. */
  lemma {:induction false} TrailingSeparatorsIgnored(x: seq<char>, q: seq<char>)
    requires AllSeparators(q)
    ensures SplitWords(x + q) == SplitWords(x)
    decreases |x|
  {
    if x == [] {
      assert x + q == q + [];
      LeadingSeparatorsIgnored(q, []);
    } else if IsSeparator(x[0]) {
      assert x == [x[0]] + x[1..];
      assert x + q == [x[0]] + (x[1..] + q);
      LeadingSeparatorsIgnored([x[0]], x[1..] + q);
      TrailingSeparatorsIgnored(x[1..], q);
      LeadingSeparatorsIgnored([x[0]], x[1..]);
    } else {
      var i := SeparatorIndex(x);
      var w, rest := x[..i], x[i..];
      assert x == w + rest;
      assert x + q == w + (rest + q);
      assert (rest + q) == [] || IsSeparator((rest + q)[0]);
      WordThenSeparator(w, rest + q);
      WordThenSeparator(w, rest);
      TrailingSeparatorsIgnored(rest, q);
    }
  }

  lemma TrimStartChangesNoWord(s: seq<char>)
    ensures SplitWords(TrimStart(s)) == SplitWords(s)
  {
    var t := TrimStart(s);
    var lead := s[..|s| - |t|];
    assert s == lead + t;
    LeadingSeparatorsIgnored(lead, t);
  }

  lemma TrimEndChangesNoWord(s: seq<char>)
    ensures SplitWords(TrimEnd(s)) == SplitWords(s)
  {
    var u := TrimEnd(s);
    var trail := s[|u|..];
    assert s == u + trail;
    TrailingSeparatorsIgnored(u, trail);
  }

  /** Trimming removes white space only, which splitting ignores anyway. */
  lemma TrimChangesNoWord(s: seq<char>)
    ensures Words(s) == SplitWords(s)
  {
    TrimStartChangesNoWord(s);
    TrimEndChangesNoWord(TrimStart(s));
  }

  // ---------------------------------------------------------------------------
  // The words are the maximal runs of non-separators, in order

  /** gaps[0] + ws[0] + gaps[1] + ... + ws[n-1] + gaps[n] */
  function Weave(gaps: seq<seq<char>>, ws: seq<seq<char>>): seq<char>
    requires |gaps| == |ws| + 1
  {
    if ws == [] then gaps[0] else gaps[0] + ws[0] + Weave(gaps[1..], ws[1..])
  }

  /** ws are maximal runs of non-separators with the separator runs gaps
      around them: the outer gaps may be empty, the inner ones may not. */
  predicate Decomposition(gaps: seq<seq<char>>, ws: seq<seq<char>>)
  {
    && |gaps| == |ws| + 1
    && (forall k :: 0 <= k < |gaps| ==> AllSeparators(gaps[k]))
    && (forall k :: 0 < k < |ws| ==> gaps[k] != [])
    && (forall k :: 0 <= k < |ws| ==> ws[k] != [] && SeparatorFree(ws[k]))
  }

  /** The separator runs of s, as Decomposition lays them out. */
  function Gaps(s: seq<char>): (gaps: seq<seq<char>>)
    ensures |gaps| >= 1 && gaps[0] == s[..SeparatorRunLength(s)]
    decreases |s|
  {
    var n := SeparatorRunLength(s);
    if n == |s| then [s]
    else
      var rest := s[n..];
      [s[..n]] + Gaps(rest[SeparatorIndex(rest)..])
  }

  lemma DecompositionCons(lead: seq<char>, w: seq<char>, gs: seq<seq<char>>, ws: seq<seq<char>>)
    requires AllSeparators(lead) && w != [] && SeparatorFree(w)
    requires Decomposition(gs, ws) && (ws != [] ==> gs[0] != [])
    ensures Decomposition([lead] + gs, [w] + ws)
    ensures Weave([lead] + gs, [w] + ws) == lead + w + Weave(gs, ws)
  {
    assert ([lead] + gs)[1..] == gs;
    assert ([w] + ws)[1..] == ws;
  }

  /** The layout of a string that is one separator run. */
  lemma SeparatorsDecompose(s: seq<char>)
    requires SeparatorRunLength(s) == |s|
    ensures |Gaps(s)| == |SplitWords(s)| + 1
    ensures Decomposition(Gaps(s), SplitWords(s))
    ensures Weave(Gaps(s), SplitWords(s)) == s
  {
    assert s + [] == s;
    LeadingSeparatorsIgnored(s, []);
    SplitWordsOfEmpty();
  }

  /** s cut into its leading separator run, its first word and the rest. */
  lemma FirstWord(s: seq<char>) returns (lead: seq<char>, w: seq<char>, tail: seq<char>)
    requires SeparatorRunLength(s) < |s|
    ensures s == lead + w + tail
    ensures AllSeparators(lead) && w != [] && SeparatorFree(w)
    ensures tail == [] || IsSeparator(tail[0])
    ensures Gaps(s) == [lead] + Gaps(tail)
  {
    var n := SeparatorRunLength(s);
    var rest := s[n..];
    var i := SeparatorIndex(rest);
    lead, w, tail := s[..n], rest[..i], rest[i..];
    LeadRun(s, n);
    WordRun(rest, i);
    Cut(s, n);
    Regroup(lead, w, tail);
    GapsStep(s, n, rest, i);
  }

  /** The separator run s starts with. */
  lemma LeadRun(s: seq<char>, n: nat)
    requires n == SeparatorRunLength(s)
    ensures AllSeparators(s[..n])
  {
  }

  /** The word s starts with, and what follows it. */
  lemma WordRun(s: seq<char>, i: nat)
    requires i == SeparatorIndex(s)
    ensures s == s[..i] + s[i..]
    ensures SeparatorFree(s[..i])
    ensures s != [] && !IsSeparator(s[0]) ==> s[..i] != []
    ensures s[i..] == [] || IsSeparator(s[i..][0])
  {
  }

  lemma Cut(s: seq<char>, n: nat)
    requires n <= |s|
    ensures s[..n] + s[n..] == s
  {
  }

  lemma Regroup(a: seq<char>, b: seq<char>, c: seq<char>)
    ensures a + b + c == a + (b + c)
  {
  }

  lemma GapsStep(s: seq<char>, n: nat, rest: seq<char>, i: nat)
    requires n == SeparatorRunLength(s) < |s| && rest == s[n..] && i == SeparatorIndex(rest)
    ensures Gaps(s) == [s[..n]] + Gaps(rest[i..])
  {
  }

  lemma SplitAfterFirstWord(s: seq<char>, lead: seq<char>, w: seq<char>, tail: seq<char>)
    requires s == lead + w + tail
    requires AllSeparators(lead) && w != [] && SeparatorFree(w)
    requires tail == [] || IsSeparator(tail[0])
    ensures SplitWords(s) == [w] + SplitWords(tail)
  {
    assert s == lead + (w + tail);
    LeadingSeparatorsIgnored(lead, w + tail);
    WordThenSeparator(w, tail);
  }

  lemma {:induction false} SplitWordsDecompose(s: seq<char>)
    ensures |Gaps(s)| == |SplitWords(s)| + 1
    ensures Decomposition(Gaps(s), SplitWords(s))
    ensures Weave(Gaps(s), SplitWords(s)) == s
    decreases |s|
  {
    if SeparatorRunLength(s) == |s| {
      SeparatorsDecompose(s);
    } else {
      var lead, w, tail := FirstWord(s);
      SplitAfterFirstWord(s, lead, w, tail);
      SplitWordsDecompose(tail);
      var ws, gs := SplitWords(tail), Gaps(tail);
      assert ws != [] ==> gs[0] != [] by {
        if ws != [] {
          assert tail != [] by {
            if tail == [] {
              SplitWordsOfEmpty();
            }
          }
          assert SeparatorRunLength(tail) >= 1;
        }
      }
      DecompositionCons(lead, w, gs, ws);
      assert s == lead + w + tail;
    }
  }

  lemma {:induction false} WeaveStart(gaps: seq<seq<char>>, ws: seq<seq<char>>)
    requires |gaps| == |ws| + 1 && gaps[0] != []
    ensures Weave(gaps, ws) != [] && Weave(gaps, ws)[0] == gaps[0][0]
  {
  }

  lemma {:induction false} DecompositionDeterminesSplitWords(gaps: seq<seq<char>>, ws: seq<seq<char>>)
    requires Decomposition(gaps, ws)
    ensures SplitWords(Weave(gaps, ws)) == ws
    decreases |ws|
  {
    if ws == [] {
      assert gaps[0] + [] == gaps[0];
      LeadingSeparatorsIgnored(gaps[0], []);
      SplitWordsOfEmpty();
    } else {
      var w := ws[0];
      var rest := Weave(gaps[1..], ws[1..]);
      assert Weave(gaps, ws) == gaps[0] + (w + rest);
      LeadingSeparatorsIgnored(gaps[0], w + rest);
      if |ws| == 1 {
        assert rest == gaps[1];
        LastWordSplits(w, rest);
      } else {
        DecompositionTail(gaps, ws);
        WordThenSeparator(w, rest);
        DecompositionDeterminesSplitWords(gaps[1..], ws[1..]);
        assert ws == [w] + ws[1..];
      }
    }
  }

  /** A word followed by separators only is the one word. */
  lemma LastWordSplits(w: seq<char>, g: seq<char>)
    requires w != [] && SeparatorFree(w) && AllSeparators(g)
    ensures SplitWords(w + g) == [w]
  {
    TrailingSeparatorsIgnored(w, g);
    assert w + [] == w;
    WordThenSeparator(w, []);
    SplitWordsOfEmpty();
  }

  /** What follows the first word of a layout with more words: a layout that
      starts with a separator. */
  lemma DecompositionTail(gaps: seq<seq<char>>, ws: seq<seq<char>>)
    requires Decomposition(gaps, ws) && |ws| > 1
    ensures Decomposition(gaps[1..], ws[1..])
    ensures IsSeparator(Weave(gaps[1..], ws[1..])[0])
  {
    assert gaps[1..][0] == gaps[1] && gaps[1] != [];
    WeaveStart(gaps[1..], ws[1..]);
    assert forall k :: 0 < k < |ws[1..]| ==> gaps[1..][k] == gaps[k + 1];
    assert forall k :: 0 <= k < |ws[1..]| ==> ws[1..][k] == ws[k + 1];
  }

  /** The words lay the input out as separator runs and maximal non-separator
      runs: each word is non-empty and separator-free, neighbouring words are
      kept apart by at least one separator, and nothing is lost or reordered. */
  lemma WordsAreMaximalRuns(s: seq<char>)
    ensures Decomposition(Gaps(s), Words(s))
    ensures Weave(Gaps(s), Words(s)) == s
  {
    TrimChangesNoWord(s);
    SplitWordsDecompose(s);
  }

  /** Conversely, any such layout of s determines its words. */
  lemma DecompositionDeterminesWords(gaps: seq<seq<char>>, ws: seq<seq<char>>)
    requires Decomposition(gaps, ws)
    ensures Words(Weave(gaps, ws)) == ws
  {
    TrimChangesNoWord(Weave(gaps, ws));
    DecompositionDeterminesSplitWords(gaps, ws);
  }

  /** There is no word exactly when every character is a separator. */
  lemma NoWordsIffAllSeparators(s: seq<char>)
    ensures Words(s) == [] <==> AllSeparators(s)
  {
    WordsAreMaximalRuns(s);
    if AllSeparators(s) {
      TrimChangesNoWord(s);
      assert s + [] == s;
      LeadingSeparatorsIgnored(s, []);
      assert SplitOnSeparatorRuns([]) == [[]];
    }
  }

  lemma {:induction false} WeaveContains(gaps: seq<seq<char>>, ws: seq<seq<char>>, k: nat, j: nat)
    requires |gaps| == |ws| + 1
    requires k < |ws| && j < |ws[k]|
    ensures ws[k][j] in Weave(gaps, ws)
    decreases k
  {
    var rest := Weave(gaps[1..], ws[1..]);
    assert Weave(gaps, ws) == gaps[0] + ws[0] + rest;
    if k == 0 {
      assert Weave(gaps, ws)[|gaps[0]| + j] == ws[0][j];
    } else {
      WeaveContains(gaps[1..], ws[1..], k - 1, j);
      var i :| 0 <= i < |rest| && rest[i] == ws[k][j];
      assert Weave(gaps, ws)[|gaps[0]| + |ws[0]| + i] == rest[i];
    }
  }

  /** After validation every word is a non-empty run of ASCII letters and
      digits. */
  lemma ValidatedWords(input: JsValue)
    ensures Validate(input).Ok? ==>
      |Validate(input).value| > 0 &&
      forall k :: 0 <= k < |Validate(input).value| ==>
        Validate(input).value[k] != [] &&
        forall j :: 0 <= j < |Validate(input).value[k]| ==> IsAlphaNumeric(Validate(input).value[k][j])
  {
    if Validate(input).Ok? {
      assert Validate(input).value == Words(input.s);
      WordsOfValidString(input.s);
    }
  }

  lemma WordsOfValidString(s: seq<char>)
    requires MatchesCharClass(s)
    ensures forall k :: 0 <= k < |Words(s)| ==>
      Words(s)[k] != [] && forall j :: 0 <= j < |Words(s)[k]| ==> IsAlphaNumeric(Words(s)[k][j])
  {
    var ws := Words(s);
    WordsAreMaximalRuns(s);
    forall k, j | 0 <= k < |ws| && 0 <= j < |ws[k]|
      ensures IsAlphaNumeric(ws[k][j])
    {
      WeaveContains(Gaps(s), ws, k, j);
      assert !IsSeparator(ws[k][j]);
    }
  }

  // ---------------------------------------------------------------------------
  // The guard clauses

  /** Null and undefined are refused first, any other non-string next, then a
      string outside the character class (the empty string included), then a
      string with no word; everything else converts. */
  lemma ValidationOrder(input: JsValue)
    ensures (input.Null? || input.Undefined?) ==> Validate(input) == Err(NullOrUndefined)
    ensures input.Other? ==> Validate(input) == Err(NotAString)
    ensures input.Str? && !MatchesCharClass(input.s) ==> Validate(input) == Err(InvalidCharacters)
    ensures input.Str? && MatchesCharClass(input.s) && AllSeparators(input.s) ==> Validate(input) == Err(NoWords)
    ensures input.Str? && MatchesCharClass(input.s) && !AllSeparators(input.s) ==> Validate(input).Ok?
  {
    if input.Str? {
      NoWordsIffAllSeparators(input.s);
    }
  }

  /** The two conversions refuse the same inputs with the same error. */
  lemma SameValidation(input: JsValue)
    ensures ToCamelCase(input).Err? <==> ToDotCase(input).Err?
    ensures ToCamelCase(input).Err? ==> ToCamelCase(input).error == ToDotCase(input).error
  {
  }

  // ---------------------------------------------------------------------------
  // A one-pass reference definition of both outputs

  datatype Style = Camel | Dot

  datatype ScanState = BeforeFirstWord | InWord | BetweenWords

  /** What the first character of a word turns into. */
  function WordStart(style: Style, st: ScanState, c: char): seq<char>
  {
    if st != BetweenWords then [Lower(c)]
    else if style == Camel then [Upper(c)]
    else ['.', Lower(c)]
  }

  /** A left-to-right pass over the input: separators are dropped, every other
      character is lower-cased, and a character that starts a word after an
      earlier word is upper-cased (camelCase) or preceded by a dot (dot.case). */
  function Scan(s: seq<char>, style: Style, st: ScanState): seq<char>
    decreases |s|
  {
    if s == [] then [] else Step(style, st, s[0]) + Scan(s[1..], style, Next(st, s[0]))
  }

  /** The output for one character read in state st. */
  function Step(style: Style, st: ScanState, c: char): seq<char>
  {
    if IsSeparator(c) then [] else WordStart(style, st, c)
  }

  /** The state after reading c in state st. */
  function Next(st: ScanState, c: char): ScanState
  {
    if !IsSeparator(c) then InWord
    else if st == BeforeFirstWord then BeforeFirstWord
    else BetweenWords
  }

  /** What the trim/split/filter/map/join expression chain makes of one word,
      first or later, in either style. */
  function Emit(style: Style, w: seq<char>, first: bool): seq<char>
  {
    if first then LowerStr(w)
    else if style == Camel then CamelWord(w, 1)
    else ['.'] + LowerStr(w)
  }

  function EmitAll(style: Style, ws: seq<seq<char>>, first: bool): seq<char>
  {
    if ws == [] then [] else Emit(style, ws[0], first) + EmitAll(style, ws[1..], false)
  }

  lemma {:induction false} ScanInWord(v: seq<char>, rest: seq<char>, style: Style)
    requires SeparatorFree(v)
    ensures Scan(v + rest, style, InWord) == LowerStr(v) + Scan(rest, style, InWord)
  {
    if v == [] {
      assert v + rest == rest;
    } else {
      assert (v + rest)[1..] == v[1..] + rest;
      ScanInWord(v[1..], rest, style);
      LowerStrCons(v);
    }
  }

  lemma ScanWord(w: seq<char>, rest: seq<char>, style: Style, first: bool)
    requires w != [] && SeparatorFree(w)
    ensures Scan(w + rest, style, if first then BeforeFirstWord else BetweenWords)
         == Emit(style, w, first) + Scan(rest, style, InWord)
  {
    var st := if first then BeforeFirstWord else BetweenWords;
    ScanReadsWord(w, rest, style, st);
    EmitWord(w, style, first);
    Regroup(WordStart(style, st, w[0]), LowerStr(w[1..]), Scan(rest, style, InWord));
  }

  lemma ScanReadsWord(w: seq<char>, rest: seq<char>, style: Style, st: ScanState)
    requires w != [] && SeparatorFree(w)
    ensures Scan(w + rest, style, st) == WordStart(style, st, w[0]) + (LowerStr(w[1..]) + Scan(rest, style, InWord))
  {
    assert (w + rest)[0] == w[0];
    ScanTakesLetter(w + rest, style, st);
    assert (w + rest)[1..] == w[1..] + rest;
    ScanInWord(w[1..], rest, style);
  }

  lemma EmitWord(w: seq<char>, style: Style, first: bool)
    requires w != []
    ensures Emit(style, w, first) == WordStart(style, if first then BeforeFirstWord else BetweenWords, w[0]) + LowerStr(w[1..])
  {
    LowerStrCons(w);
    if !first && style == Camel {
      CaseRoundTrip(w[0]);
      var l := LowerStr(w);
      assert CharAt(l, 0) == [Lower(w[0])];
      assert Slice(l, 1) == LowerStr(w[1..]);
      assert UpperStr([Lower(w[0])]) == [Upper(w[0])];
    }
  }

  /** Any other character starts or continues a word. */
  lemma ScanTakesLetter(s: seq<char>, style: Style, st: ScanState)
    requires s != [] && !IsSeparator(s[0])
    ensures Scan(s, style, st) == WordStart(style, st, s[0]) + Scan(s[1..], style, InWord)
  {
  }

  /** A separator produces nothing; after a word it ends the word. */
  lemma ScanSkipsSeparator(s: seq<char>, style: Style, st: ScanState)
    requires s != [] && IsSeparator(s[0])
    ensures Scan(s, style, st) == Scan(s[1..], style, if st == BeforeFirstWord then BeforeFirstWord else BetweenWords)
  {
  }

  lemma {:induction false} ScanEmitsWords(s: seq<char>, style: Style, first: bool)
    ensures Scan(s, style, if first then BeforeFirstWord else BetweenWords)
         == EmitAll(style, SplitWords(s), first)
    decreases |s|
  {
    if s == [] {
      SplitWordsOfEmpty();
    } else if IsSeparator(s[0]) {
      ScanEmitsWords(s[1..], style, first);
      SeparatorThenEmits(s, style, first);
    } else {
      var i := SeparatorIndex(s);
      var w, rest := s[..i], s[i..];
      WordRun(s, i);
      if rest != [] {
        ScanEmitsWords(rest[1..], style, false);
      }
      WordThenEmits(s, w, rest, style, first);
    }
  }

  lemma SeparatorThenEmits(s: seq<char>, style: Style, first: bool)
    requires s != [] && IsSeparator(s[0])
    requires Scan(s[1..], style, if first then BeforeFirstWord else BetweenWords)
          == EmitAll(style, SplitWords(s[1..]), first)
    ensures Scan(s, style, if first then BeforeFirstWord else BetweenWords)
         == EmitAll(style, SplitWords(s), first)
  {
    assert s == [s[0]] + s[1..];
    LeadingSeparatorsIgnored([s[0]], s[1..]);
    ScanSkipsSeparator(s, style, if first then BeforeFirstWord else BetweenWords);
  }

  lemma WordThenEmits(s: seq<char>, w: seq<char>, rest: seq<char>, style: Style, first: bool)
    requires s == w + rest && w != [] && SeparatorFree(w)
    requires rest == [] || IsSeparator(rest[0])
    requires rest != [] ==>
      Scan(rest[1..], style, BetweenWords) == EmitAll(style, SplitWords(rest[1..]), false)
    ensures Scan(s, style, if first then BeforeFirstWord else BetweenWords)
         == EmitAll(style, SplitWords(s), first)
  {
    WordThenSeparator(w, rest);
    ScanWord(w, rest, style, first);
    EmitAllCons(style, w, SplitWords(rest), first);
    RestEmits(rest, style);
  }

  /** What follows a word is empty or starts with a separator, which ends it. */
  lemma RestEmits(rest: seq<char>, style: Style)
    requires rest == [] || IsSeparator(rest[0])
    requires rest != [] ==>
      Scan(rest[1..], style, BetweenWords) == EmitAll(style, SplitWords(rest[1..]), false)
    ensures Scan(rest, style, InWord) == EmitAll(style, SplitWords(rest), false)
  {
    if rest == [] {
      SplitWordsOfEmpty();
    } else {
      assert rest == [rest[0]] + rest[1..];
      LeadingSeparatorsIgnored([rest[0]], rest[1..]);
      ScanSkipsSeparator(rest, style, InWord);
    }
  }

  lemma EmitAllCons(style: Style, w: seq<char>, ws: seq<seq<char>>, first: bool)
    ensures EmitAll(style, [w] + ws, first) == Emit(style, w, first) + EmitAll(style, ws, false)
  {
    assert ([w] + ws)[1..] == ws;
  }

  lemma {:induction false} CamelJoinEmits(ws: seq<seq<char>>, index: nat)
    ensures Join(CamelWords(ws, index), "") == EmitAll(Camel, ws, index == 0)
    decreases |ws|
  {
    if ws != [] {
      CamelJoinEmits(ws[1..], index + 1);
      assert CamelWords(ws, index) == [CamelWord(ws[0], index)] + CamelWords(ws[1..], index + 1);
      if ws[1..] != [] {
        ConcatCons(CamelWord(ws[0], index), CamelWords(ws[1..], index + 1));
      }
      if index > 0 {
        assert CamelWord(ws[0], index) == CamelWord(ws[0], 1);
      }
    }
  }

  lemma {:induction false} DotJoinEmits(ws: seq<seq<char>>, first: bool)
    requires ws != []
    ensures (if first then [] else ['.']) + Join(LowerWords(ws), ".") == EmitAll(Dot, ws, first)
    decreases |ws|
  {
    DotEmitsFirst(ws, first);
    if ws[1..] == [] {
      assert EmitAll(Dot, ws[1..], false) == [];
      assert LowerWords(ws) == [LowerStr(ws[0])];
    } else {
      DotJoinEmits(ws[1..], false);
      DotJoinFirst(ws);
      DotRegroup(if first then [] else ['.'], LowerStr(ws[0]), Join(LowerWords(ws[1..]), "."));
    }
  }

  lemma DotRegroup(pre: seq<char>, x: seq<char>, j: seq<char>)
    ensures pre + (x + "." + j) == pre + x + (['.'] + j)
  {
  }

  lemma DotEmitsFirst(ws: seq<seq<char>>, first: bool)
    requires ws != []
    ensures EmitAll(Dot, ws, first) == (if first then [] else ['.']) + LowerStr(ws[0]) + EmitAll(Dot, ws[1..], false)
  {
    var head: seq<char> := (if first then [] else ['.']) + LowerStr(ws[0]);
    assert Emit(Dot, ws[0], first) == head;
    assert EmitAll(Dot, ws, first) == Emit(Dot, ws[0], first) + EmitAll(Dot, ws[1..], false);
  }

  lemma DotJoinFirst(ws: seq<seq<char>>)
    requires |ws| > 1
    ensures Join(LowerWords(ws), ".") == LowerStr(ws[0]) + "." + Join(LowerWords(ws[1..]), ".")
  {
    assert LowerWords(ws) == [LowerStr(ws[0])] + LowerWords(ws[1..]);
    JoinCons(LowerStr(ws[0]), LowerWords(ws[1..]), ".");
  }

  /** toCamelCase on a string, in full: the error it raises, or the output of
      the one-pass reference definition. */
  lemma CamelCaseMatchesScan(s: seq<char>)
    ensures ToCamelCase(Str(s)) ==
      if !MatchesCharClass(s) then Err(InvalidCharacters)
      else if AllSeparators(s) then Err(NoWords)
      else Ok(Scan(s, Camel, BeforeFirstWord))
  {
    NoWordsIffAllSeparators(s);
    if MatchesCharClass(s) && !AllSeparators(s) {
      TrimChangesNoWord(s);
      ScanEmitsWords(s, Camel, true);
      CamelJoinEmits(Words(s), 0);
    }
  }

  /** toDotCase on a string, in full. */
  lemma DotCaseMatchesScan(s: seq<char>)
    ensures ToDotCase(Str(s)) ==
      if !MatchesCharClass(s) then Err(InvalidCharacters)
      else if AllSeparators(s) then Err(NoWords)
      else Ok(Scan(s, Dot, BeforeFirstWord))
  {
    NoWordsIffAllSeparators(s);
    if MatchesCharClass(s) && !AllSeparators(s) {
      var ws := Words(s);
      assert ToDotCase(Str(s)) == Ok(Join(LowerWords(ws), "."));
      TrimChangesNoWord(s);
      ScanEmitsWords(s, Dot, true);
      DotWordsEmit(ws);
    }
  }

  lemma DotWordsEmit(ws: seq<seq<char>>)
    requires ws != []
    ensures Join(LowerWords(ws), ".") == EmitAll(Dot, ws, true)
  {
    DotJoinEmits(ws, true);
    var joined: seq<char> := Join(LowerWords(ws), ".");
    assert [] + joined == joined;
  }

  // ---------------------------------------------------------------------------
  // The shape of the outputs

  lemma {:induction false} CamelWordsLength(ws: seq<seq<char>>, index: nat)
    ensures TotalLength(CamelWords(ws, index)) == TotalLength(ws)
    decreases |ws|
  {
    if ws != [] {
      CamelWordsLength(ws[1..], index + 1);
      assert CamelWords(ws, index)[1..] == CamelWords(ws[1..], index + 1);
    }
  }

  lemma CamelWordsChars(ws: seq<seq<char>>, index: nat)
    requires forall k, j :: 0 <= k < |ws| && 0 <= j < |ws[k]| ==> IsAlphaNumeric(ws[k][j])
    ensures forall k, j :: 0 <= k < |ws| && 0 <= j < |CamelWords(ws, index)[k]| ==>
      IsAlphaNumeric(CamelWords(ws, index)[k][j])
  {
    forall k, j | 0 <= k < |ws| && 0 <= j < |CamelWords(ws, index)[k]|
      ensures IsAlphaNumeric(CamelWords(ws, index)[k][j])
    {
      CamelWordsAt(ws, index, k);
      CamelWordChars(ws[k], index + k);
    }
  }

  /** The k-th output of the map is the callback applied at position index + k. */
  lemma {:induction false} CamelWordsAt(ws: seq<seq<char>>, index: nat, k: nat)
    requires k < |ws|
    ensures CamelWords(ws, index)[k] == CamelWord(ws[k], index + k)
    decreases k
  {
    var tail := CamelWords(ws[1..], index + 1);
    assert CamelWords(ws, index) == [CamelWord(ws[0], index)] + tail;
    if k > 0 {
      CamelWordsAt(ws[1..], index + 1, k - 1);
      assert ws[1..][k - 1] == ws[k];
    }
  }

  /** Casing a word of letters and digits keeps it letters and digits. */
  lemma CamelWordChars(w: seq<char>, index: nat)
    requires forall j :: 0 <= j < |w| ==> IsAlphaNumeric(w[j])
    ensures forall j :: 0 <= j < |CamelWord(w, index)| ==> IsAlphaNumeric(CamelWord(w, index)[j])
  {
    var l, r := LowerStr(w), CamelWord(w, index);
    if index > 0 && l != [] {
      assert r == [Upper(l[0])] + l[1..];
      assert IsAlphaNumeric(Upper(l[0]));
      forall j | 0 <= j < |r| ensures IsAlphaNumeric(r[j]) {
        if j > 0 {
          assert r[j] == Lower(w[j]);
        }
      }
    } else {
      assert r == l;
    }
  }

  lemma {:induction false} LowerWordsShape(ws: seq<seq<char>>)
    requires forall k, j :: 0 <= k < |ws| && 0 <= j < |ws[k]| ==> IsAlphaNumeric(ws[k][j])
    ensures forall k, j :: 0 <= k < |ws| && 0 <= j < |LowerWords(ws)[k]| ==>
      IsLower(LowerWords(ws)[k][j]) || IsDigit(LowerWords(ws)[k][j])
    ensures forall k :: 0 <= k < |ws| ==> LowerWords(ws)[k] == LowerStr(ws[k])
    decreases |ws|
  {
    if ws != [] {
      assert forall k, j :: 0 <= k < |ws[1..]| && 0 <= j < |ws[1..][k]| ==> ws[1..][k][j] == ws[k + 1][j];
      LowerWordsShape(ws[1..]);
      assert LowerWords(ws)[1..] == LowerWords(ws[1..]);
    }
  }

  /** The camelCase output is the words run together: as long as all words
      together, made of letters and digits only, and starting with the first
      word lower-cased. */
  lemma CamelCaseShape(input: JsValue)
    requires ToCamelCase(input).Ok?
    ensures var ws, out := Validate(input).value, ToCamelCase(input).value;
      && |out| == TotalLength(ws)
      && (forall i :: 0 <= i < |out| ==> IsAlphaNumeric(out[i]))
      && |ws[0]| <= |out| && out[..|ws[0]|] == LowerStr(ws[0])
  {
    var ws := Validate(input).value;
    var out := ToCamelCase(input).value;
    ValidatedWords(input);
    JoinLength(CamelWords(ws, 0), "");
    CamelWordsLength(ws, 0);
    CamelWordsChars(ws, 0);
    JoinKeeps(CamelWords(ws, 0), "", IsAlphaNumeric);
    CamelJoinEmits(ws, 0);
    assert out == LowerStr(ws[0]) + EmitAll(Camel, ws[1..], false);
  }

  /** The dot.case output has one dot between each two words and otherwise
      only lower-case letters and digits: no upper case, no white space, no
      hyphen and no underscore. */
  lemma DotCaseShape(input: JsValue)
    requires ToDotCase(input).Ok?
    ensures var ws, out := Validate(input).value, ToDotCase(input).value;
      && Count(out, '.') == |ws| - 1
      && |out| == TotalLength(ws) + |ws| - 1
      && (forall i :: 0 <= i < |out| ==> IsLower(out[i]) || IsDigit(out[i]) || out[i] == '.')
  {
    var ws := Validate(input).value;
    var lws := LowerWords(ws);
    ValidatedWords(input);
    LowerWordsShape(ws);
    forall k | 0 <= k < |lws| ensures '.' !in lws[k] {
      assert forall j :: 0 <= j < |lws[k]| ==> IsLower(lws[k][j]) || IsDigit(lws[k][j]);
    }
    CountJoin(lws, '.');
    JoinLength(lws, ".");
    assert TotalLength(lws) == TotalLength(ws) by {
      LowerWordsLength(ws);
    }
    JoinKeeps(lws, ".", c => IsLower(c) || IsDigit(c) || c == '.');
  }

  lemma {:induction false} LowerWordsLength(ws: seq<seq<char>>)
    ensures TotalLength(LowerWords(ws)) == TotalLength(ws)
    decreases |ws|
  {
    if ws != [] {
      LowerWordsLength(ws[1..]);
      assert LowerWords(ws)[1..] == LowerWords(ws[1..]);
    }
  }

  /** Splitting the dot.case output at its dots gives back the lower-cased
      words. */
  lemma DotCaseSplitsBack(input: JsValue)
    requires ToDotCase(input).Ok?
    ensures Split(ToDotCase(input).value, '.') == LowerWords(Validate(input).value)
  {
    var ws := Validate(input).value;
    var lws := LowerWords(ws);
    ValidatedWords(input);
    LowerWordsShape(ws);
    forall k | 0 <= k < |lws| ensures '.' !in lws[k] {
      assert forall j :: 0 <= j < |lws[k]| ==> IsLower(lws[k][j]) || IsDigit(lws[k][j]);
    }
    SplitJoinRoundTrip(lws, '.');
  }

  // ---------------------------------------------------------------------------
  // The documented examples

  /** Two words with one separator between them, as in every documented
      example, are validated into those two words. */
  lemma TwoWords(w1: seq<char>, sep: char, w2: seq<char>)
    requires w1 != [] && w2 != [] && IsSeparator(sep)
    requires forall j :: 0 <= j < |w1| ==> IsAlphaNumeric(w1[j])
    requires forall j :: 0 <= j < |w2| ==> IsAlphaNumeric(w2[j])
    ensures Validate(Str(w1 + [sep] + w2)) == Ok([w1, w2])
  {
    forall c | IsAlphaNumeric(c) ensures !IsSeparator(c) {
      AlphaNumericIsNotSpace(c);
    }
    TwoWordsSplit(w1, sep, w2);
    TwoWordsAllowed(w1, sep, w2);
  }

  lemma TwoWordsSplit(w1: seq<char>, sep: char, w2: seq<char>)
    requires w1 != [] && w2 != [] && IsSeparator(sep)
    requires SeparatorFree(w1) && SeparatorFree(w2)
    ensures Words(w1 + [sep] + w2) == [w1, w2]
  {
    var gaps: seq<seq<char>> := [[], [sep], []];
    var ws := [w1, w2];
    assert Decomposition(gaps, ws);
    assert Weave(gaps, ws) == w1 + [sep] + w2 by {
      assert Weave(gaps[2..], ws[2..]) == [];
      assert Weave(gaps[1..], ws[1..]) == [sep] + w2 + [];
    }
    DecompositionDeterminesWords(gaps, ws);
  }

  lemma TwoWordsAllowed(w1: seq<char>, sep: char, w2: seq<char>)
    requires IsSeparator(sep)
    requires forall j :: 0 <= j < |w1| ==> IsAlphaNumeric(w1[j])
    requires forall j :: 0 <= j < |w2| ==> IsAlphaNumeric(w2[j])
    ensures MatchesCharClass(w1 + [sep] + w2)
  {
    var s1 := w1 + [sep];
    assert forall i :: 0 <= i < |s1| ==> IsAllowed(s1[i]) by {
      assert forall i :: 0 <= i < |w1| ==> s1[i] == w1[i];
      assert s1[|w1|] == sep;
    }
    var s := s1 + w2;
    assert forall i :: |s1| <= i < |s| ==> s[i] == w2[i - |s1|];
  }

  lemma TwoWordsCamel(w1: seq<char>, w2: seq<char>)
    ensures Join(CamelWords([w1, w2], 0), "") == LowerStr(w1) + CamelWord(w2, 1)
  {
    var ws := [w1, w2];
    assert CamelWords(ws, 0) == [LowerStr(w1)] + [CamelWord(w2, 1)] by {
      assert ws[1..] == [w2] && ws[1..][1..] == [];
    }
    ConcatCons(LowerStr(w1), [CamelWord(w2, 1)]);
  }

  lemma TwoWordsDot(w1: seq<char>, w2: seq<char>)
    ensures Join(LowerWords([w1, w2]), ".") == LowerStr(w1) + "." + LowerStr(w2)
  {
    var ws := [w1, w2];
    assert LowerWords(ws) == [LowerStr(w1)] + [LowerStr(w2)] by {
      assert ws[1..] == [w2] && ws[1..][1..] == [];
    }
    JoinCons(LowerStr(w1), [LowerStr(w2)], ".");
  }

  /** An input of two words joined by one separator: the camelCase output is
      the first word lower-cased followed by the second capitalised. */
  lemma CamelOfTwoWords(s: seq<char>, w1: seq<char>, sep: char, w2: seq<char>)
    requires s == w1 + [sep] + w2
    requires w1 != [] && w2 != [] && IsSeparator(sep)
    requires forall j :: 0 <= j < |w1| ==> IsAlphaNumeric(w1[j])
    requires forall j :: 0 <= j < |w2| ==> IsAlphaNumeric(w2[j])
    ensures ToCamelCase(Str(s)) == Ok(LowerStr(w1) + CamelWord(w2, 1))
  {
    TwoWords(w1, sep, w2);
    TwoWordsCamel(w1, w2);
  }

  /** The same input in dot.case: both words lower-cased, one dot between. */
  lemma DotOfTwoWords(s: seq<char>, w1: seq<char>, sep: char, w2: seq<char>)
    requires s == w1 + [sep] + w2
    requires w1 != [] && w2 != [] && IsSeparator(sep)
    requires forall j :: 0 <= j < |w1| ==> IsAlphaNumeric(w1[j])
    requires forall j :: 0 <= j < |w2| ==> IsAlphaNumeric(w2[j])
    ensures ToDotCase(Str(s)) == Ok(LowerStr(w1) + "." + LowerStr(w2))
  {
    TwoWords(w1, sep, w2);
    TwoWordsDot(w1, w2);
  }

  // Each documented input is passed in as a parameter s rather than written
  // into the calls, and the case mappings of its words are worked out apart.

  lemma FirstNameCases()
    ensures LowerStr("first") + CamelWord("name", 1) == "firstName"
    ensures LowerStr("first") + "." + LowerStr("name") == "first.name"
  {
    assert LowerStr("first") == "first";
    assert LowerStr("name") == "name";
    assert CamelWord("name", 1) == "Name";
  }

  lemma FirstNameSplit(s: seq<char>)
    requires s == "first name"
    ensures s[..5] == "first" && s[5] == ' ' && s[6..] == "name"
    ensures IsSeparator(s[5])
    ensures forall j :: 0 <= j < |s[..5]| ==> IsAlphaNumeric(s[..5][j])
    ensures forall j :: 0 <= j < |s[6..]| ==> IsAlphaNumeric(s[6..][j])
  {
  }

  lemma FirstName(s: seq<char>)
    requires s == "first name"
    ensures ToCamelCase(Str(s)) == Ok("firstName")
    ensures ToDotCase(Str(s)) == Ok("first.name")
  {
    var w1, w2 := s[..5], s[6..];
    CutAt(s, 5);
    FirstNameSplit(s);
    FirstNameCases();
    CamelOfTwoWords(s, w1, s[5], w2);
    DotOfTwoWords(s, w1, s[5], w2);
  }

  lemma UserIdCases()
    ensures LowerStr("user") + CamelWord("id", 1) == "userId"
    ensures LowerStr("user") + "." + LowerStr("id") == "user.id"
  {
    assert LowerStr("user") == "user";
    assert LowerStr("id") == "id";
    assert CamelWord("id", 1) == "Id";
  }

  lemma UserIdSplit(s: seq<char>)
    requires s == "user_id"
    ensures s[..4] == "user" && s[4] == '_' && s[5..] == "id"
    ensures IsSeparator(s[4])
    ensures forall j :: 0 <= j < |s[..4]| ==> IsAlphaNumeric(s[..4][j])
    ensures forall j :: 0 <= j < |s[5..]| ==> IsAlphaNumeric(s[5..][j])
  {
  }

  lemma UserId(s: seq<char>)
    requires s == "user_id"
    ensures ToCamelCase(Str(s)) == Ok("userId")
    ensures ToDotCase(Str(s)) == Ok("user.id")
  {
    var w1, w2 := s[..4], s[5..];
    CutAt(s, 4);
    UserIdSplit(s);
    UserIdCases();
    CamelOfTwoWords(s, w1, s[4], w2);
    DotOfTwoWords(s, w1, s[4], w2);
  }

  lemma ScreenNameCases()
    ensures LowerStr("SCREEN") + CamelWord("NAME", 1) == "screenName"
    ensures LowerStr("SCREEN") + "." + LowerStr("NAME") == "screen.name"
  {
    assert LowerStr("SCREEN") == "screen";
    assert LowerStr("NAME") == "name";
    assert CamelWord("NAME", 1) == "Name";
  }

  lemma ScreenNameSplit(s: seq<char>)
    requires s == "SCREEN_NAME"
    ensures s[..6] == "SCREEN" && s[6] == '_' && s[7..] == "NAME"
    ensures IsSeparator(s[6])
    ensures forall j :: 0 <= j < |s[..6]| ==> IsAlphaNumeric(s[..6][j])
    ensures forall j :: 0 <= j < |s[7..]| ==> IsAlphaNumeric(s[7..][j])
  {
  }

  lemma ScreenName(s: seq<char>)
    requires s == "SCREEN_NAME"
    ensures ToCamelCase(Str(s)) == Ok("screenName")
    ensures ToDotCase(Str(s)) == Ok("screen.name")
  {
    var w1, w2 := s[..6], s[7..];
    CutAt(s, 6);
    ScreenNameSplit(s);
    ScreenNameCases();
    CamelOfTwoWords(s, w1, s[6], w2);
    DotOfTwoWords(s, w1, s[6], w2);
  }

  lemma MobileNumberCases()
    ensures LowerStr("mobile") + CamelWord("number", 1) == "mobileNumber"
    ensures LowerStr("mobile") + "." + LowerStr("number") == "mobile.number"
  {
    assert LowerStr("mobile") == "mobile";
    assert LowerStr("number") == "number";
    assert CamelWord("number", 1) == "Number";
  }

  lemma MobileNumberSplit(s: seq<char>)
    requires s == "mobile-number"
    ensures s[..6] == "mobile" && s[6] == '-' && s[7..] == "number"
    ensures IsSeparator(s[6])
    ensures forall j :: 0 <= j < |s[..6]| ==> IsAlphaNumeric(s[..6][j])
    ensures forall j :: 0 <= j < |s[7..]| ==> IsAlphaNumeric(s[7..][j])
  {
  }

  lemma MobileNumber(s: seq<char>)
    requires s == "mobile-number"
    ensures ToCamelCase(Str(s)) == Ok("mobileNumber")
    ensures ToDotCase(Str(s)) == Ok("mobile.number")
  {
    var w1, w2 := s[..6], s[7..];
    CutAt(s, 6);
    MobileNumberSplit(s);
    MobileNumberCases();
    CamelOfTwoWords(s, w1, s[6], w2);
    DotOfTwoWords(s, w1, s[6], w2);
  }

  /** The four documented conversions, in both styles. */
  lemma DocumentedExamples()
    ensures ToCamelCase(Str("first name")) == Ok("firstName")
    ensures ToCamelCase(Str("user_id")) == Ok("userId")
    ensures ToCamelCase(Str("SCREEN_NAME")) == Ok("screenName")
    ensures ToCamelCase(Str("mobile-number")) == Ok("mobileNumber")
    ensures ToDotCase(Str("first name")) == Ok("first.name")
    ensures ToDotCase(Str("user_id")) == Ok("user.id")
    ensures ToDotCase(Str("SCREEN_NAME")) == Ok("screen.name")
    ensures ToDotCase(Str("mobile-number")) == Ok("mobile.number")
  {
    FirstName("first name");
    UserId("user_id");
    ScreenName("SCREEN_NAME");
    MobileNumber("mobile-number");
  }

  /** '82&*)73' is refused for its characters, null with its message. */
  lemma InvalidInputExamples()
    ensures ToCamelCase(Str("82&*)73")) == Err(InvalidCharacters)
    ensures ToDotCase(Str("82&*)73")) == Err(InvalidCharacters)
    ensures Message(ToCamelCase(Null).error) == "Input cannot be null or undefined"
  {
    var s := "82&*)73";
    assert s[2] == '&';
    assert !IsJsSpace('&');
    assert !IsAllowed(s[2]);
  }

  /** The empty string fails the character class, which needs at least one
      character; a string of separators only passes it and has no word. */
  lemma EmptyInputExamples()
    ensures ToCamelCase(Str("")) == Err(InvalidCharacters)
    ensures ToDotCase(Str(" -_ ")) == Err(NoWords)
  {
    var s := " -_ ";
    assert forall i :: 0 <= i < |s| ==> IsSeparator(s[i]) by {
      assert s[0] == ' ' && s[1] == '-' && s[2] == '_' && s[3] == ' ';
    }
    DotCaseMatchesScan(s);
  }
}
