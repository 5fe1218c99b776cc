/** String operations of the JavaScript runtime that the mail client relies on:
    `toLowerCase`, `includes`, `indexOf`, `replace` with a string pattern,
    `trim`, `join` and `split`, modelled on `seq<char>`. */
module Text {

  /** Length of the longest run of characters satisfying `p` that starts at `i`. */
  function Span(s: string, i: nat, p: char -> bool): (n: nat)
    requires i <= |s|
    ensures i + n <= |s|
    ensures forall k :: i <= k < i + n ==> p(s[k])
    ensures i + n == |s| || !p(s[i + n])
    decreases |s| - i
  {
    if i == |s| || !p(s[i]) then 0 else 1 + Span(s, i + 1, p)
  }

  /** A run of `n` characters satisfying `p`, ended by the end of `s` or by a
      character that does not, is exactly what `Span` measures. */
  lemma {:induction false} SpanExact(s: string, i: nat, n: nat, p: char -> bool)
    requires i + n <= |s|
    requires forall j :: i <= j < i + n ==> p(s[j])
    requires i + n == |s| || !p(s[i + n])
    ensures Span(s, i, p) == n
    decreases n
  {
    if n > 0 {
      SpanExact(s, i + 1, n - 1, p);
    }
  }

  // ---------------------------------------------------------------------
  // Lower-casing

  predicate IsAsciiUpper(c: char) {
    'A' <= c <= 'Z'
  }

  /** `toLowerCase` on one character, restricted to the ASCII letters. */
  function LowerChar(c: char): (r: char)
    ensures !IsAsciiUpper(r)
    ensures IsAsciiUpper(c) ==> r as int == c as int + 32
    ensures !IsAsciiUpper(c) ==> r == c
  {
    if IsAsciiUpper(c) then (c as int + 32) as char else c
  }

  function Lower(s: string): (r: string)
    ensures |r| == |s|
    ensures forall i :: 0 <= i < |s| ==> r[i] == LowerChar(s[i])
  {
    if s == [] then [] else [LowerChar(s[0])] + Lower(s[1..])
  }

  // ---------------------------------------------------------------------
  // Substring search

  predicate OccursAt(s: string, p: string, i: nat) {
    i + |p| <= |s| && s[i..i + |p|] == p
  }

  /** The independent meaning of "`p` is a substring of `s`": it occurs somewhere. */
  ghost predicate HasSubstring(s: string, p: string) {
    exists i: nat :: OccursAt(s, p, i)
  }

  /** `s.indexOf(p, from)`: the first position at or after `from` where `p` occurs, else -1. */
  function IndexOf(s: string, p: string, from: nat): (r: int)
    requires from <= |s|
    ensures r == -1 || (from <= r <= |s| - |p| && OccursAt(s, p, r))
    ensures r == -1 ==> forall i :: from <= i <= |s| - |p| ==> !OccursAt(s, p, i)
    ensures r != -1 ==> forall i :: from <= i < r ==> !OccursAt(s, p, i)
    decreases |s| - from
  {
    if from + |p| > |s| then -1
    else if OccursAt(s, p, from) then from
    else IndexOf(s, p, from + 1)
  }

  /** `s.includes(p)`. */
  predicate Includes(s: string, p: string) {
    IndexOf(s, p, 0) != -1
  }

  lemma IncludesIff(s: string, p: string)
    ensures Includes(s, p) <==> HasSubstring(s, p)
  {
    var r := IndexOf(s, p, 0);
    if r != -1 {
      assert OccursAt(s, p, r);
    }
  }

  /** `s.replace(p, "")` with a string pattern: removes the first occurrence of `p`, if any. */
  function RemoveFirst(s: string, p: string): (r: string)
    ensures IndexOf(s, p, 0) == -1 ==> r == s
    ensures IndexOf(s, p, 0) != -1 ==> |r| == |s| - |p|
  {
    var i := IndexOf(s, p, 0);
    if i == -1 then s else s[..i] + s[i + |p|..]
  }

  /** An occurrence anywhere means `replace` removes `|p|` characters. */
  lemma RemoveFirstShrinks(s: string, p: string, i: nat)
    requires OccursAt(s, p, i)
    ensures |RemoveFirst(s, p)| == |s| - |p|
  {
    assert IndexOf(s, p, 0) != -1;
  }

  /** `replace` cuts out the first occurrence, where `indexOf` finds it. */
  lemma RemoveFirstAt(s: string, p: string, i: nat)
    requires IndexOf(s, p, 0) == i
    ensures RemoveFirst(s, p) == s[..i] + s[i + |p|..]
  {
  }

  /** `s.replace(/c/g, "")` for one character `c`: removes every occurrence. */
  function RemoveAll(s: string, c: char): (r: string)
    ensures c !in r
    ensures forall x :: x in r <==> x in s && x != c
    ensures c !in s ==> r == s
  {
    if s == [] then []
    else if s[0] == c then RemoveAll(s[1..], c)
    else [s[0]] + RemoveAll(s[1..], c)
  }

  /** Removal works character by character and keeps the order of what is
      left: it distributes over concatenation. */
  lemma {:induction false} RemoveAllAppend(a: string, b: string, c: char)
    ensures RemoveAll(a + b, c) == RemoveAll(a, c) + RemoveAll(b, c)
  {
    if a == [] {
      assert a + b == b;
    } else {
      assert (a + b)[0] == a[0];
      assert (a + b)[1..] == a[1..] + b;
      RemoveAllAppend(a[1..], b, c);
    }
  }

  /** One character is dropped when it is `c` and kept otherwise. */
  lemma RemoveAllSingle(x: char, c: char)
    ensures RemoveAll([x], c) == if x == c then [] else [x]
  {
  }

  // ---------------------------------------------------------------------
  // Trimming

  /** The ECMAScript WhiteSpace and LineTerminator code points that `trim` removes. */
  predicate IsJsSpace(c: char) {
    || c == '\t' || c == '\n' || c == '\U{000B}' || c == '\U{000C}' || c == '\r'
    || c == ' ' || c == '\U{00A0}' || c == '\U{1680}'
    || ('\U{2000}' <= c <= '\U{200A}')
    || c == '\U{2028}' || c == '\U{2029}' || c == '\U{202F}' || c == '\U{205F}'
    || c == '\U{3000}' || c == '\U{FEFF}'
  }

  function TrimEnd(s: string): (r: string)
    ensures r <= s
    ensures r == [] || !IsJsSpace(r[|r| - 1])
    ensures forall k :: |r| <= k < |s| ==> IsJsSpace(s[k])
  {
    if s != [] && IsJsSpace(s[|s| - 1]) then TrimEnd(s[..|s| - 1]) else s
  }

  /** `s.trim()`. */
  function Trim(s: string): (r: string)
    ensures |r| <= |s|
  {
    TrimEnd(s[Span(s, 0, IsJsSpace)..])
  }

  /** What `trim` promises: the result is the slice `s[i..j]` left after
      dropping the white space at both ends, and it neither starts nor ends
      with white space. */
  lemma TrimSpec(s: string) returns (i: nat, j: nat)
    ensures i <= j <= |s| && Trim(s) == s[i..j]
    ensures forall k :: 0 <= k < i ==> IsJsSpace(s[k])
    ensures forall k :: j <= k < |s| ==> IsJsSpace(s[k])
    ensures Trim(s) == [] || (!IsJsSpace(Trim(s)[0]) && !IsJsSpace(Trim(s)[|Trim(s)| - 1]))
  {
    i := Span(s, 0, IsJsSpace);
    var t := s[i..];
    var r := TrimEnd(t);
    assert Trim(s) == r;
    j := i + |r|;
    TrimEndSlice(s, i, r);
    if r != [] {
      assert r[0] == s[i];
    }
  }

  /** The end-trimmed suffix `s[i..]` is `s[i..i + |r|]`, followed by white space only. */
  lemma TrimEndSlice(s: string, i: nat, r: string)
    requires i <= |s| && r == TrimEnd(s[i..])
    ensures i + |r| <= |s| && r == s[i..i + |r|]
    ensures forall k :: i + |r| <= k < |s| ==> IsJsSpace(s[k])
  {
    var t := s[i..];
    assert r == t[..|r|];
    forall k | i + |r| <= k < |s| ensures IsJsSpace(s[k]) {
      assert s[k] == t[k - i];
    }
  }

  /** Trimming adds no character. */
  lemma TrimAddsNothing(s: string, c: char)
    requires c !in s
    ensures c !in Trim(s)
  {
    var i := Span(s, 0, IsJsSpace);
    var r := TrimEnd(s[i..]);
    assert forall k :: 0 <= k < |r| ==> r[k] == s[i + k];
  }

  // ---------------------------------------------------------------------
  // Join and split

  /** `lines.join(sep)`. */
  function Join(lines: seq<string>, sep: string): (r: string)
    ensures lines == [] ==> r == []
    ensures |lines| == 1 ==> r == lines[0]
  {
    if lines == [] then []
    else if |lines| == 1 then lines[0]
    else lines[0] + sep + Join(lines[1..], sep)
  }

  /** `s.split(c)` for a one-character separator: the pieces between the occurrences of `c`. */
  function Split(s: string, c: char): (r: seq<string>)
    ensures |r| >= 1
    ensures forall k :: 0 <= k < |r| ==> c !in r[k]
    decreases |s|
  {
    var n := Span(s, 0, x => x != c);
    if n == |s| then [s] else [s[..n]] + Split(s[n + 1..], c)
  }

  /** Joining lines that hold no separator and splitting again gives the lines back. */
  lemma {:induction false} SplitJoin(lines: seq<string>, c: char)
    requires lines != []
    requires forall k :: 0 <= k < |lines| ==> c !in lines[k]
    ensures Split(Join(lines, [c]), c) == lines
  {
    var first := lines[0];
    var n := Span(first, 0, x => x != c);
    assert n == |first|;
    if |lines| == 1 {
      assert Join(lines, [c]) == first;
    } else {
      var rest := Join(lines[1..], [c]);
      var s := first + [c] + rest;
      assert Join(lines, [c]) == s;
      var m := Span(s, 0, x => x != c);
      assert forall k :: 0 <= k < |first| ==> s[k] == first[k];
      assert s[|first|] == c;
      assert m == |first|;
      assert s[..m] == first;
      assert s[m + 1..] == rest;
      SplitJoin(lines[1..], c);
    }
  }

  /** A string without the separator is one piece. */
  lemma SplitNoSeparator(s: string, c: char)
    requires c !in s
    ensures Split(s, c) == [s]
  {
    SpanExact(s, 0, |s|, x => x != c);
  }

  /** The first separator of `s` at `n` cuts off the first piece. */
  lemma SplitAtFirst(s: string, n: nat, c: char)
    requires n < |s| && s[n] == c
    requires forall k :: 0 <= k < n ==> s[k] != c
    ensures Split(s, c) == [s[..n]] + Split(s[n + 1..], c)
  {
    SpanExact(s, 0, n, x => x != c);
  }

  /** The position of the first separator in a string that holds one. */
  lemma FirstSeparator(x: string, c: char) returns (n: nat)
    requires c in x
    ensures n < |x| && x[n] == c
    ensures forall k :: 0 <= k < n ==> x[k] != c
  {
    n := Span(x, 0, z => z != c);
  }

  /** A first piece without separator is cut off as a whole. */
  lemma SplitAfterPiece(x: string, y: string, c: char)
    requires c !in x
    ensures Split(x + [c] + y, c) == [x] + Split(y, c)
  {
    var s := x + [c] + y;
    assert forall k :: 0 <= k < |x| ==> s[k] == x[k];
    SplitAtFirst(s, |x|, c);
    assert s[..|x|] == x;
    assert s[|x| + 1..] == y;
  }

  /** The first piece of `x` is also the first piece of `x + [c] + y`. */
  lemma SplitFirstPiece(x: string, y: string, c: char, n: nat)
    requires n < |x| && x[n] == c
    requires forall k :: 0 <= k < n ==> x[k] != c
    ensures Split(x, c) == [x[..n]] + Split(x[n + 1..], c)
    ensures Split(x + [c] + y, c) == [x[..n]] + Split(x[n + 1..] + [c] + y, c)
  {
    var s := x + [c] + y;
    assert s[..n] == x[..n] && s[n + 1..] == x[n + 1..] + [c] + y by {
      assert forall k :: 0 <= k < n ==> s[k] == x[k];
    }
    assert Split(s, c) == [s[..n]] + Split(s[n + 1..], c) by {
      assert forall k :: 0 <= k <= n ==> s[k] == x[k];
      SplitAtFirst(s, n, c);
    }
    SplitAtFirst(x, n, c);
  }

  lemma ConcatAssoc<T>(a: seq<T>, b: seq<T>, d: seq<T>)
    ensures a + (b + d) == (a + b) + d
  {
  }

  /** Splitting at one separator splits each side independently. */
  lemma {:induction false} SplitAppend(x: string, y: string, c: char)
    ensures Split(x + [c] + y, c) == Split(x, c) + Split(y, c)
    decreases |x|
  {
    if c !in x {
      SplitAfterPiece(x, y, c);
      SplitNoSeparator(x, c);
    } else {
      var n := FirstSeparator(x, c);
      var rest := x[n + 1..];
      SplitFirstPiece(x, y, c, n);
      SplitAppend(rest, y, c);
      ConcatAssoc([x[..n]], Split(rest, c), Split(y, c));
    }
  }
}
