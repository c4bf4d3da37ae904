/** The JavaScript string and array built-ins the utilities are written with:
    split on a one-character separator, join, charAt and slice, and the
    first-occurrence search split performs. */
module JsString {

  /** Position of the first c in s, or |s| when s has none: the search
      split(c) performs for its next cut. */
  function IndexOf(s: seq<char>, c: char): (i: nat)
    ensures i <= |s|
    ensures forall k :: 0 <= k < i ==> s[k] != c
    ensures i < |s| ==> s[i] == c
  {
    if s == [] || s[0] == c then 0 else 1 + IndexOf(s[1..], c)
  }

  /** s.split(c): the pieces between consecutive occurrences of c, so that k
      occurrences give k + 1 pieces and "".split(c) is [""]. */
  function Split(s: seq<char>, c: char): (pieces: seq<seq<char>>)
    ensures |pieces| == Count(s, c) + 1
    ensures forall k :: 0 <= k < |pieces| ==> c !in pieces[k]
    decreases |s|
  {
    var i := IndexOf(s, c);
    if i == |s| then
      CountAbsent(s, c);
      [s]
    else
      CountSplitAt(s, c, i);
      [s[..i]] + Split(s[i + 1..], c)
  }

  /** xs.join(sep); [].join(sep) is "". */
  function Join(xs: seq<seq<char>>, sep: seq<char>): seq<char>
  {
    if |xs| == 0 then [] else if |xs| == 1 then xs[0] else xs[0] + sep + Join(xs[1..], sep)
  }

  /** s.charAt(i): the one-character string at i, or "" past the end. */
  function CharAt(s: seq<char>, i: nat): seq<char>
  {
    if i < |s| then [s[i]] else []
  }

  /** s.slice(i) for i >= 0: the suffix from i, or "" past the end. */
  function Slice(s: seq<char>, i: nat): seq<char>
  {
    if i <= |s| then s[i..] else []
  }

  /** Number of occurrences of c in s. */
  function Count(s: seq<char>, c: char): nat
  {
    if s == [] then 0 else (if s[0] == c then 1 else 0) + Count(s[1..], c)
  }

  /** Sum of the lengths of the strings in xs. */
  function TotalLength(xs: seq<seq<char>>): nat
  {
    if xs == [] then 0 else |xs[0]| + TotalLength(xs[1..])
  }

  /** s with every c replaced by d. */
  function Replace(s: seq<char>, c: char, d: char): seq<char>
  {
    seq(|s|, i requires 0 <= i < |s| => if s[i] == c then d else s[i])
  }

  lemma {:induction false} CountAbsent(s: seq<char>, c: char)
    requires c !in s
    ensures Count(s, c) == 0
  {
    if s != [] {
      assert s[0] != c;
      assert forall k :: 0 <= k < |s[1..]| ==> s[1..][k] == s[k + 1];
      CountAbsent(s[1..], c);
    }
  }

  lemma {:induction false} CountConcat(a: seq<char>, b: seq<char>, c: char)
    ensures Count(a + b, c) == Count(a, c) + Count(b, c)
  {
    if a == [] {
      assert a + b == b;
    } else {
      assert (a + b)[1..] == a[1..] + b;
      CountConcat(a[1..], b, c);
    }
  }

  lemma CountSplitAt(s: seq<char>, c: char, i: nat)
    requires i < |s| && s[i] == c && c !in s[..i]
    ensures Count(s, c) == 1 + Count(s[i + 1..], c)
  {
    assert s == s[..i] + ([s[i]] + s[i + 1..]);
    CountConcat(s[..i], [s[i]] + s[i + 1..], c);
    CountAbsent(s[..i], c);
    assert ([s[i]] + s[i + 1..])[1..] == s[i + 1..];
  }

  lemma JoinCons(x: seq<char>, xs: seq<seq<char>>, sep: seq<char>)
    requires |xs| > 0
    ensures Join([x] + xs, sep) == x + sep + Join(xs, sep)
  {
    assert ([x] + xs)[1..] == xs;
  }

  /** join('') is concatenation. */
  lemma ConcatCons(x: seq<char>, xs: seq<seq<char>>)
    requires |xs| > 0
    ensures Join([x] + xs, "") == x + Join(xs, "")
  {
    JoinCons(x, xs, "");
    assert x + "" == x;
  }

  /** Joining with "" drops nothing and adds nothing; joining with sep adds
      one sep between each two neighbours. */
  lemma {:induction false} JoinLength(xs: seq<seq<char>>, sep: seq<char>)
    requires |xs| > 0
    ensures |Join(xs, sep)| == TotalLength(xs) + (|xs| - 1) * |sep|
  {
    if |xs| > 1 {
      JoinLength(xs[1..], sep);
      assert (|xs| - 1) * |sep| == |sep| + (|xs| - 2) * |sep|;
    }
  }

  /** Every character of xs.join(sep) comes from one of the xs or from sep:
      a property all of them have, the joined string has. */
  lemma {:induction false} JoinKeeps(xs: seq<seq<char>>, sep: seq<char>, p: char -> bool)
    requires forall k, j :: 0 <= k < |xs| && 0 <= j < |xs[k]| ==> p(xs[k][j])
    requires forall j :: 0 <= j < |sep| ==> p(sep[j])
    ensures forall i :: 0 <= i < |Join(xs, sep)| ==> p(Join(xs, sep)[i])
  {
    if |xs| > 1 {
      JoinKeeps(xs[1..], sep, p);
      var rest := Join(xs[1..], sep);
      assert Join(xs, sep) == xs[0] + sep + rest;
      forall i | 0 <= i < |Join(xs, sep)|
        ensures p(Join(xs, sep)[i])
      {
        if i < |xs[0]| {
          assert Join(xs, sep)[i] == xs[0][i];
        } else if i < |xs[0]| + |sep| {
          assert Join(xs, sep)[i] == sep[i - |xs[0]|];
        } else {
          assert Join(xs, sep)[i] == rest[i - |xs[0]| - |sep|];
        }
      }
    }
  }

  /** splitting on c and joining with d is replacing every c by d. */
  lemma {:induction false} JoinSplitReplaces(s: seq<char>, c: char, d: char)
    ensures Join(Split(s, c), [d]) == Replace(s, c, d)
    decreases |s|
  {
    var i := IndexOf(s, c);
    if i < |s| {
      var rest := s[i + 1..];
      JoinSplitReplaces(rest, c, d);
      SplitStep(s, c, i);
      JoinCons(s[..i], Split(rest, c), [d]);
      ReplaceStep(s, c, d, i);
    }
  }

  lemma SplitStep(s: seq<char>, c: char, i: nat)
    requires i == IndexOf(s, c) < |s|
    ensures Split(s, c) == [s[..i]] + Split(s[i + 1..], c)
  {
  }

  lemma ReplaceStep(s: seq<char>, c: char, d: char, i: nat)
    requires i == IndexOf(s, c) < |s|
    ensures Replace(s, c, d) == s[..i] + [d] + Replace(s[i + 1..], c, d)
  {
    var r := s[..i] + [d] + Replace(s[i + 1..], c, d);
    assert forall k :: 0 <= k < i ==> r[k] == s[k];
    assert r[i] == d;
    assert forall k :: i < k < |s| ==> r[k] == Replace(s[i + 1..], c, d)[k - i - 1];
  }

  /** s is what comes before position i, the character at i, and what
      comes after. */
  lemma CutAt(s: seq<char>, i: nat)
    requires i < |s|
    ensures s == s[..i] + ([s[i]] + s[i + 1..])
    ensures s == s[..i] + [s[i]] + s[i + 1..]
  {
  }

  lemma ReplaceConcat(a: seq<char>, b: seq<char>, c: char, d: char)
    ensures Replace(a + b, c, d) == Replace(a, c, d) + Replace(b, c, d)
  {
  }

  lemma ReplaceAbsent(s: seq<char>, c: char, d: char)
    requires c !in s
    ensures Replace(s, c, d) == s
  {
  }

  /** split(c) and join(c) are inverse: nothing is lost by splitting. */
  lemma JoinSplitRoundTrip(s: seq<char>, c: char)
    ensures Join(Split(s, c), [c]) == s
  {
    JoinSplitReplaces(s, c, c);
    assert Replace(s, c, c) == s;
  }

  /** and conversely, pieces without c are recovered by splitting their join. */
  lemma {:induction false} SplitJoinRoundTrip(xs: seq<seq<char>>, c: char)
    requires |xs| > 0
    requires forall k :: 0 <= k < |xs| ==> c !in xs[k]
    ensures Split(Join(xs, [c]), c) == xs
  {
    var x := xs[0];
    assert forall k :: 0 <= k < |x| ==> x[k] != c;
    if |xs| == 1 {
      assert IndexOf(x, c) == |x|;
    } else {
      var rest := Join(xs[1..], [c]);
      var s := x + [c] + rest;
      assert Join(xs, [c]) == s;
      assert s[|x|] == c;
      assert IndexOf(s, c) == |x| by {
        assert forall k :: 0 <= k < |x| ==> s[k] == x[k];
      }
      assert s[..|x|] == x;
      assert s[|x| + 1..] == rest;
      SplitJoinRoundTrip(xs[1..], c);
      assert xs == [x] + xs[1..];
    }
  }

  /** Occurrences of c in pieces joined by c: one per gap. */
  lemma {:induction false} CountJoin(xs: seq<seq<char>>, c: char)
    requires |xs| > 0
    requires forall k :: 0 <= k < |xs| ==> c !in xs[k]
    ensures Count(Join(xs, [c]), c) == |xs| - 1
  {
    SplitJoinRoundTrip(xs, c);
  }
}
