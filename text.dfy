/** The handful of Python string operations the parser is built from:
    `str.strip`/`lstrip`/`rstrip` with and without a character set,
    `str.split()`, `' '.join`, and `sorted` on a list of strings. */
module Text {

  /** Python's `str.isspace()` on one character; `str.strip()`, `str.split()` and
      the regular-expression class `\s` all use this set. */
  predicate IsSpace(c: char) {
    ('\U{9}' <= c <= '\U{D}') || ('\U{1C}' <= c <= '\U{20}') || c == '\U{85}' || c == '\U{A0}'
    || c == '\U{1680}' || ('\U{2000}' <= c <= '\U{200A}') || c == '\U{2028}' || c == '\U{2029}'
    || c == '\U{202F}' || c == '\U{205F}' || c == '\U{3000}'
  }

  /** The character sets the parser strips: Python's whitespace, or explicit characters. */
  datatype CharSet = Spaces | Among(chars: set<char>)

  predicate In(c: char, k: CharSet) {
    match k
    case Spaces => IsSpace(c)
    case Among(chars) => c in chars
  }

  predicate NoneIn(s: string, k: CharSet) {
    forall i :: 0 <= i < |s| ==> !In(s[i], k)
  }

  predicate AllIn(s: string, k: CharSet) {
    forall i :: 0 <= i < |s| ==> In(s[i], k)
  }

  /** Python's `s.lstrip(chars)`. */
  function LStrip(s: string, k: CharSet): (r: string)
    ensures |r| <= |s|
    decreases |s|
  {
    if s != [] && In(s[0], k) then LStrip(s[1..], k) else s
  }

  /** `lstrip` removes exactly the longest prefix made of `k`. */
  lemma {:induction false} LStripSpec(s: string, k: CharSet)
    ensures var r := LStrip(s, k);
      r == s[|s| - |r|..] && AllIn(s[..|s| - |r|], k) && (r == [] || !In(r[0], k))
    decreases |s|
  {
    if s != [] && In(s[0], k) {
      LStripSpec(s[1..], k);
      var n := |s| - |LStrip(s, k)|;
      forall i | 0 <= i < n ensures In(s[..n][i], k) {
        if i > 0 {
          assert s[..n][i] == s[1..][..n - 1][i - 1];
        }
      }
    }
  }

  /** Python's `s.rstrip(chars)`. */
  function RStrip(s: string, k: CharSet): (r: string)
    ensures |r| <= |s|
    decreases |s|
  {
    if s != [] && In(s[|s| - 1], k) then RStrip(s[..|s| - 1], k) else s
  }

  /** `rstrip` removes exactly the longest suffix made of `k`. */
  lemma {:induction false} RStripSpec(s: string, k: CharSet)
    ensures var r := RStrip(s, k);
      r == s[..|r|] && AllIn(s[|r|..], k) && (r == [] || !In(r[|r| - 1], k))
    decreases |s|
  {
    if s != [] && In(s[|s| - 1], k) {
      var p := s[..|s| - 1];
      RStripSpec(p, k);
      var n := |RStrip(s, k)|;
      forall i | 0 <= i < |s| - n ensures In(s[n..][i], k) {
        if n + i < |p| {
          assert s[n..][i] == p[n..][i];
        }
      }
    }
  }

  /** Python's `s.strip(chars)`. */
  function StripSet(s: string, k: CharSet): (r: string)
    ensures |r| <= |s|
  {
    RStrip(LStrip(s, k), k)
  }

  /** `strip` keeps a slice `s[a..a + |r|]`: everything outside it belongs to `k`
      and neither end of it does. */
  lemma StripSetSpec(s: string, k: CharSet)
    ensures var r := StripSet(s, k);
      (r == [] || (!In(r[0], k) && !In(r[|r| - 1], k)))
      && exists a :: (0 <= a <= |s| - |r| && r == s[a..a + |r|]
        && AllIn(s[..a], k) && AllIn(s[a + |r|..], k))
  {
    var l := LStrip(s, k);
    var r := RStrip(l, k);
    LStripSpec(s, k);
    RStripSpec(l, k);
    var a := |s| - |l|;
    assert r == s[a..a + |r|];
    assert s[a + |r|..] == l[|r|..];
  }

  /** Python's `s.strip()`. */
  function Strip(s: string): string {
    StripSet(s, Spaces)
  }

  /** Length of the leading run of non-whitespace characters of `s`. */
  function WordLen(s: string): (n: nat)
    ensures n <= |s| && NoneIn(s[..n], Spaces)
    ensures n == |s| || IsSpace(s[n])
  {
    if s == [] || IsSpace(s[0]) then 0
    else
      var n := 1 + WordLen(s[1..]);
      assert s[..n] == [s[0]] + s[1..][..n - 1];
      n
  }

  /** A word as `str.split()` produces it: non-empty, without whitespace. */
  predicate IsWord(w: string) {
    w != [] && NoneIn(w, Spaces)
  }

  /** Python's `s.split()`: the maximal runs of non-whitespace characters, in order. */
  function Split(s: string): (ws: seq<string>)
    ensures forall i :: 0 <= i < |ws| ==> IsWord(ws[i])
    decreases |s|
  {
    var t := LStrip(s, Spaces);
    LStripSpec(s, Spaces);
    if t == [] then []
    else
      var n := WordLen(t);
      [t[..n]] + Split(t[n..])
  }

  /** `sep.join(ws)`. */
  function Join(ws: seq<string>, sep: string): string {
    if ws == [] then []
    else if |ws| == 1 then ws[0]
    else ws[0] + sep + Join(ws[1..], sep)
  }

  /** Splitting a space-joined list of words gives the words back. */
  lemma {:induction false} SplitJoin(ws: seq<string>)
    requires forall i :: 0 <= i < |ws| ==> IsWord(ws[i])
    ensures Split(Join(ws, " ")) == ws
  {
    if |ws| == 1 {
      SplitOneWord(ws[0]);
    } else if |ws| > 1 {
      var t := ws[1..];
      assert forall i :: 0 <= i < |t| ==> IsWord(t[i]) by {
        forall i | 0 <= i < |t| ensures IsWord(t[i]) { assert t[i] == ws[i + 1]; }
      }
      SplitJoinStep(ws);
      SplitJoin(t);
      HeadTail(ws);
    }
  }

  lemma HeadTail<T>(s: seq<T>)
    requires s != []
    ensures [s[0]] + s[1..] == s
  {
  }

  lemma SplitJoinStep(ws: seq<string>)
    requires |ws| > 1 && IsWord(ws[0])
    ensures Split(Join(ws, " ")) == [ws[0]] + Split(Join(ws[1..], " "))
  {
    var rest := Join(ws[1..], " ");
    var tail := " " + rest;
    assert Join(ws, " ") == ws[0] + tail;
    SplitWord(ws[0], tail);
    LeadingSpace(rest);
  }

  lemma SplitOneWord(w: string)
    requires IsWord(w)
    ensures Split(w) == [w]
  {
    SplitWord(w, []);
    assert w + [] == w;
  }

  lemma SplitWord(w: string, tail: string)
    requires IsWord(w)
    requires tail == [] || IsSpace(tail[0])
    ensures Split(w + tail) == [w] + Split(tail)
  {
    var s := w + tail;
    assert LStrip(s, Spaces) == s by {
      assert s[0] == w[0];
    }
    WordLenOfWord(w, tail);
    assert s[|w|..] == tail;
  }

  lemma {:induction false} WordLenOfWord(w: string, tail: string)
    requires IsWord(w)
    requires tail == [] || IsSpace(tail[0])
    ensures WordLen(w + tail) == |w| && (w + tail)[..|w|] == w
  {
    if |w| > 1 {
      assert (w + tail)[1..] == w[1..] + tail;
      WordLenOfWord(w[1..], tail);
    } else {
      assert (w + tail)[1..] == tail;
    }
  }

  lemma LeadingSpace(rest: string)
    ensures Split(" " + rest) == Split(rest)
  {
    assert (" " + rest)[1..] == rest;
  }

  lemma LStripIdem(s: string)
    ensures LStrip(LStrip(s, Spaces), Spaces) == LStrip(s, Spaces)
  {
    LStripSpec(s, Spaces);
  }

  /** Leading whitespace does not change the words. */
  lemma SplitLStrip(s: string)
    ensures Split(LStrip(s, Spaces)) == Split(s)
  {
    LStripIdem(s);
  }

  lemma {:induction false} LStripAppend(s: string, w: string)
    requires LStrip(s, Spaces) != []
    ensures LStrip(s + w, Spaces) == LStrip(s, Spaces) + w
    decreases |s|
  {
    if In(s[0], Spaces) {
      assert (s + w)[1..] == s[1..] + w;
      LStripAppend(s[1..], w);
    }
  }

  lemma {:induction false} WordLenAppend(t: string, w: string)
    requires AllIn(w, Spaces)
    ensures WordLen(t + w) == WordLen(t)
    decreases |t|
  {
    if t == [] {
      assert t + w == w;
    } else if !IsSpace(t[0]) {
      assert (t + w)[1..] == t[1..] + w;
      WordLenAppend(t[1..], w);
    }
  }

  lemma {:induction false} AllInSpacesSplit(s: string)
    requires AllIn(s, Spaces)
    ensures Split(s) == []
  {
    LStripSpec(s, Spaces);
  }

  /** Trailing whitespace does not change the words. */
  lemma {:induction false} SplitTrailingSpaces(s: string, w: string)
    requires AllIn(w, Spaces)
    ensures Split(s + w) == Split(s)
    decreases |s|
  {
    var t := LStrip(s, Spaces);
    LStripSpec(s, Spaces);
    if t == [] {
      assert AllIn(s + w, Spaces) by {
        assert s == s[..|s| - |t|];
      }
      AllInSpacesSplit(s + w);
    } else {
      LStripAppend(s, w);
      WordLenAppend(t, w);
      var n := WordLen(t);
      assert (t + w)[..n] == t[..n];
      assert (t + w)[n..] == t[n..] + w;
      SplitTrailingSpaces(t[n..], w);
    }
  }

  /** `s.strip().split()` is `s.split()`. */
  lemma SplitStrip(s: string)
    ensures Split(Strip(s)) == Split(s)
  {
    var l := LStrip(s, Spaces);
    var r := RStrip(l, Spaces);
    RStripSpec(l, Spaces);
    assert l == r + l[|r|..];
    SplitTrailingSpaces(r, l[|r|..]);
    SplitLStrip(s);
  }

  /** Python's `<=` on `str`: code point by code point, a prefix first. */
  predicate LexLe(a: string, b: string) {
    a == [] || (b != [] && (a[0] < b[0] || (a[0] == b[0] && LexLe(a[1..], b[1..]))))
  }

  lemma {:induction false} LexLeRefl(a: string)
    ensures LexLe(a, a)
  {
    if a != [] {
      LexLeRefl(a[1..]);
    }
  }

  lemma {:induction false} LexLeTotal(a: string, b: string)
    ensures LexLe(a, b) || LexLe(b, a)
  {
    if a != [] && b != [] && a[0] == b[0] {
      LexLeTotal(a[1..], b[1..]);
    }
  }

  lemma {:induction false} LexLeTrans(a: string, b: string, c: string)
    requires LexLe(a, b) && LexLe(b, c)
    ensures LexLe(a, c)
  {
    if a != [] && a[0] == b[0] && b[0] == c[0] {
      LexLeTrans(a[1..], b[1..], c[1..]);
    }
  }

  lemma {:induction false} LexLeAntisym(a: string, b: string)
    requires LexLe(a, b) && LexLe(b, a)
    ensures a == b
  {
    if a != [] {
      LexLeAntisym(a[1..], b[1..]);
      assert a == [a[0]] + a[1..] && b == [b[0]] + b[1..];
    }
  }

  predicate Sorted(s: seq<string>) {
    forall i, j :: 0 <= i < j < |s| ==> LexLe(s[i], s[j])
  }

  /** `x` placed before the first element it does not exceed. */
  function Insert(x: string, s: seq<string>): seq<string> {
    if s == [] then [x]
    else if LexLe(x, s[0]) then [x] + s
    else [s[0]] + Insert(x, s[1..])
  }

  /** Python's `sorted` on a list of strings (duplicates are kept). */
  function Sort(s: seq<string>): seq<string> {
    if s == [] then [] else Insert(s[0], Sort(s[1..]))
  }

  /** A list with a least element in front of a sorted list is sorted. */
  lemma SortedCons(a: string, t: seq<string>)
    requires Sorted(t) && forall j :: 0 <= j < |t| ==> LexLe(a, t[j])
    ensures Sorted([a] + t)
  {
    var r := [a] + t;
    forall i, j | 0 <= i < j < |r| ensures LexLe(r[i], r[j]) {
      assert r[j] == t[j - 1];
      if i > 0 {
        assert r[i] == t[i - 1];
      }
    }
  }

  /** A lower bound of `x` and of all of `s` bounds all of `Insert(x, s)`. */
  lemma {:induction false} InsertBound(y: string, x: string, s: seq<string>)
    requires LexLe(y, x) && forall j :: 0 <= j < |s| ==> LexLe(y, s[j])
    ensures forall j :: 0 <= j < |Insert(x, s)| ==> LexLe(y, Insert(x, s)[j])
  {
    if s != [] && !LexLe(x, s[0]) {
      InsertBound(y, x, s[1..]);
      var r := Insert(x, s);
      forall j | 0 <= j < |r| ensures LexLe(y, r[j]) {
        if j > 0 {
          assert r[j] == Insert(x, s[1..])[j - 1];
        }
      }
    }
  }

  /** Inserting into a sorted list keeps it sorted. */
  lemma {:induction false} InsertSorted(x: string, s: seq<string>)
    requires Sorted(s)
    ensures Sorted(Insert(x, s))
  {
    if s == [] {
    } else if LexLe(x, s[0]) {
      forall j | 0 <= j < |s| ensures LexLe(x, s[j]) {
        if j > 0 {
          LexLeTrans(x, s[0], s[j]);
        }
      }
      SortedCons(x, s);
    } else {
      InsertSorted(x, s[1..]);
      LexLeTotal(x, s[0]);
      InsertBound(s[0], x, s[1..]);
      SortedCons(s[0], Insert(x, s[1..]));
    }
  }

  /** Inserting adds exactly `x`. */
  lemma {:induction false} InsertPerm(x: string, s: seq<string>)
    ensures multiset(Insert(x, s)) == multiset(s) + multiset{x}
  {
    if s != [] && !LexLe(x, s[0]) {
      InsertPerm(x, s[1..]);
      assert s == [s[0]] + s[1..];
    }
  }

  /** `Sort` gives a sorted permutation of its input. */
  lemma {:induction false} SortSpec(s: seq<string>)
    ensures Sorted(Sort(s)) && multiset(Sort(s)) == multiset(s)
  {
    if s != [] {
      SortSpec(s[1..]);
      InsertSorted(s[0], Sort(s[1..]));
      InsertPerm(s[0], Sort(s[1..]));
      assert s == [s[0]] + s[1..];
    }
  }

  lemma HeadIsLeast(a: seq<string>, x: string)
    requires Sorted(a) && x in multiset(a)
    ensures LexLe(a[0], x)
  {
    var i :| 0 <= i < |a| && a[i] == x;
    if i == 0 {
      LexLeRefl(x);
    }
  }

  lemma SameTails(a: seq<string>, b: seq<string>)
    requires a != [] && b != [] && a[0] == b[0] && multiset(a) == multiset(b)
    ensures multiset(a[1..]) == multiset(b[1..])
  {
    assert a == [a[0]] + a[1..] && b == [b[0]] + b[1..];
    assert multiset(a) == multiset{a[0]} + multiset(a[1..]);
    assert multiset(b) == multiset{b[0]} + multiset(b[1..]);
    forall x ensures multiset(a[1..])[x] == multiset(b[1..])[x] {
      assert multiset(a)[x] == multiset{a[0]}[x] + multiset(a[1..])[x];
      assert multiset(b)[x] == multiset{b[0]}[x] + multiset(b[1..])[x];
    }
  }

  /** A sorted permutation is unique, so `Sort` agrees with any sorting algorithm,
      Python's included. */
  lemma {:induction false} SortedUnique(a: seq<string>, b: seq<string>)
    requires Sorted(a) && Sorted(b) && multiset(a) == multiset(b)
    ensures a == b
  {
    if a != [] {
      assert a[0] in multiset(a) && b[0] in multiset(b);
      HeadIsLeast(a, b[0]);
      HeadIsLeast(b, a[0]);
      LexLeAntisym(a[0], b[0]);
      SameTails(a, b);
      SortedUnique(a[1..], b[1..]);
      assert a == [a[0]] + a[1..] && b == [b[0]] + b[1..];
    }
  }
}
