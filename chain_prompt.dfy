/** toKebabCase (chain_prompt.js): str.split(' ').join('-').toLowerCase().
    There is no validation: every string converts. */
module ChainPrompt {
  import opened Ascii
  import opened JsString

  function ToKebabCase(s: seq<char>): seq<char>
  {
    LowerStr(Join(Split(s, ' '), "-"))
  }

  /** What toKebabCase makes of one character. */
  function KebabChar(c: char): char
  {
    if c == ' ' then '-' else Lower(c)
  }

  /** Splitting at spaces and joining with hyphens replaces each space by a
      hyphen. */
  lemma KebabAsReplace(s: seq<char>)
    ensures ToKebabCase(s) == LowerStr(Replace(s, ' ', '-'))
  {
    JoinSplitReplaces(s, ' ', '-');
  }

  /** The conversion works position by position: each space becomes a hyphen,
      every other character is lower-cased, and the length does not change.
      In particular a run of spaces is not collapsed. */
  lemma KebabPointwise(s: seq<char>)
    ensures |ToKebabCase(s)| == |s|
    ensures forall i :: 0 <= i < |s| ==> ToKebabCase(s)[i] == KebabChar(s[i])
  {
    KebabAsReplace(s);
  }

  /** The output has no space and no upper-case letter. */
  lemma KebabAlphabet(s: seq<char>)
    ensures ' ' !in ToKebabCase(s)
    ensures forall i :: 0 <= i < |ToKebabCase(s)| ==> !IsUpper(ToKebabCase(s)[i])
  {
    KebabPointwise(s);
  }

  /** Converting twice is converting once. */
  lemma KebabIdempotent(s: seq<char>)
    ensures ToKebabCase(ToKebabCase(s)) == ToKebabCase(s)
  {
    var k := ToKebabCase(s);
    KebabPointwise(s);
    KebabPointwise(k);
    forall i | 0 <= i < |k| ensures ToKebabCase(k)[i] == k[i] {
      assert KebabChar(KebabChar(s[i])) == KebabChar(s[i]);
    }
  }

  /** A hyphen in the output stands for a space or a hyphen of the input, at
      the same place. */
  lemma KebabHyphens(s: seq<char>)
    ensures |ToKebabCase(s)| == |s|
    ensures forall i :: 0 <= i < |s| ==> (ToKebabCase(s)[i] == '-' <==> s[i] == ' ' || s[i] == '-')
  {
    KebabPointwise(s);
  }

  /** The conversion of a concatenation is the concatenation of the
      conversions. */
  lemma KebabConcat(a: seq<char>, b: seq<char>)
    ensures ToKebabCase(a + b) == ToKebabCase(a) + ToKebabCase(b)
  {
    KebabAsReplace(a + b);
    KebabAsReplace(a);
    KebabAsReplace(b);
    ReplaceConcat(a, b, ' ', '-');
    LowerStrConcat(Replace(a, ' ', '-'), Replace(b, ' ', '-'));
  }

  /** A string without spaces is only lower-cased. */
  lemma KebabOfWord(w: seq<char>)
    requires ' ' !in w
    ensures ToKebabCase(w) == LowerStr(w)
  {
    KebabAsReplace(w);
    ReplaceAbsent(w, ' ', '-');
  }

  /** A word, a space, and the rest. */
  lemma KebabWordThen(w: seq<char>, rest: seq<char>)
    requires ' ' !in w
    ensures ToKebabCase(w + [' '] + rest) == LowerStr(w) + "-" + ToKebabCase(rest)
  {
    KebabConcat(w + [' '], rest);
    KebabConcat(w, [' ']);
    KebabOfWord(w);
    KebabAsReplace([' ']);
  }

  // The examples below take their input as a parameter s, and the facts about
  // its literal pieces are worked out apart.

  lemma HelloWorldPieces()
    ensures ' ' !in "Hello" && ' ' !in "World"
    ensures LowerStr("Hello") == "hello" && LowerStr("World") == "world"
    ensures "hello" + "-" + "world" == "hello-world"
  {
  }

  lemma HelloWorldSplit(s: seq<char>)
    requires s == "Hello World"
    ensures s[..5] == "Hello" && s[5] == ' ' && s[6..] == "World"
  {
  }

  lemma HelloWorld(s: seq<char>)
    requires s == "Hello World"
    ensures ToKebabCase(s) == "hello-world"
  {
    var w1, w2 := s[..5], s[6..];
    CutAt(s, 5);
    HelloWorldSplit(s);
    HelloWorldPieces();
    KebabWordThen(w1, w2);
    KebabOfWord(w2);
  }

  lemma SinglePieces()
    ensures ' ' !in "single" && LowerStr("single") == "single"
  {
  }

  lemma Single(s: seq<char>)
    requires s == "single"
    ensures ToKebabCase(s) == "single"
  {
    SinglePieces();
    KebabOfWord(s);
  }

  lemma MultipleSpacesWords()
    ensures ' ' !in "Multiple" && ' ' !in "Spaces"
    ensures LowerStr("Multiple") == "multiple" && LowerStr("Spaces") == "spaces"
  {
  }

  lemma MultipleSpacesRun()
    ensures LowerStr(Replace("   ", ' ', '-')) == "---"
  {
    assert Replace("   ", ' ', '-') == "---";
  }

  lemma MultipleSpacesSplit(s: seq<char>)
    requires s == "Multiple   Spaces"
    ensures s == s[..8] + s[8..11] + s[11..]
    ensures s[..8] == "Multiple" && s[8..11] == "   " && s[11..] == "Spaces"
  {
  }

  /** Three spaces give three hyphens. */
  lemma MultipleSpaces(s: seq<char>)
    requires s == "Multiple   Spaces"
    ensures ToKebabCase(s) == "multiple---spaces"
  {
    var a, b, c := s[..8], s[8..11], s[11..];
    MultipleSpacesSplit(s);
    MultipleSpacesWords();
    MultipleSpacesRun();
    assert "multiple" + "---" + "spaces" == "multiple---spaces";
    KebabConcat(a + b, c);
    KebabConcat(a, b);
    KebabOfWord(a);
    KebabOfWord(c);
    KebabAsReplace(b);
  }

  lemma LanguageWords()
    ensures ' ' !in "JavaScript" && ' ' !in "Programming" && ' ' !in "Language"
  {
  }

  lemma LanguageLower()
    ensures LowerStr("JavaScript") == "javascript"
    ensures LowerStr("Programming") == "programming"
    ensures LowerStr("Language") == "language"
  {
  }

  lemma LanguageJoined()
    ensures "programming" + "-" + "language" == "programming-language"
    ensures "javascript" + "-" + "programming-language" == "javascript-programming-language"
  {
  }

  lemma ProgrammingLanguageTailSplit(s: seq<char>)
    requires s == "Programming Language"
    ensures s[..11] == "Programming" && s[11] == ' ' && s[12..] == "Language"
  {
  }

  lemma ProgrammingLanguageTail(s: seq<char>)
    requires s == "Programming Language"
    ensures ToKebabCase(s) == "programming-language"
  {
    var w1, w2 := s[..11], s[12..];
    CutAt(s, 11);
    ProgrammingLanguageTailSplit(s);
    LanguageWords();
    LanguageLower();
    LanguageJoined();
    KebabWordThen(w1, w2);
    KebabOfWord(w2);
  }

  lemma ProgrammingLanguageSplit(s: seq<char>)
    requires s == "JavaScript Programming Language"
    ensures s[..10] == "JavaScript" && s[10] == ' ' && s[11..] == "Programming Language"
  {
  }

  lemma ProgrammingLanguage(s: seq<char>)
    requires s == "JavaScript Programming Language"
    ensures ToKebabCase(s) == "javascript-programming-language"
  {
    var w1, rest := s[..10], s[11..];
    CutAt(s, 10);
    ProgrammingLanguageSplit(s);
    LanguageWords();
    LanguageLower();
    LanguageJoined();
    KebabWordThen(w1, rest);
    ProgrammingLanguageTail(rest);
  }

  /** A string without upper-case letters is left as it is by lower-casing. */
  lemma LowerOfLower(s: seq<char>)
    requires forall i :: 0 <= i < |s| ==> !IsUpper(s[i])
    ensures LowerStr(s) == s
  {
  }

  lemma ConvertThisSpaces(s: seq<char>)
    requires s == "convert this to kebab case"
    ensures Replace(s, ' ', '-') == "convert-this-to-kebab-case"
  {
  }

  lemma ConvertThisLower(s: seq<char>)
    requires s == "convert-this-to-kebab-case"
    ensures forall i :: 0 <= i < |s| ==> !IsUpper(s[i])
  {
  }

  /** Five lower-case words: each space becomes a hyphen. */
  lemma ConvertThis(s: seq<char>)
    requires s == "convert this to kebab case"
    ensures ToKebabCase(s) == "convert-this-to-kebab-case"
  {
    KebabAsReplace(s);
    ConvertThisSpaces(s);
    ConvertThisLower(Replace(s, ' ', '-'));
    LowerOfLower(Replace(s, ' ', '-'));
  }

  /** The empty string converts to itself. */
  lemma EmptyString(s: seq<char>)
    requires s == ""
    ensures ToKebabCase(s) == ""
  {
    KebabPointwise(s);
  }
}
