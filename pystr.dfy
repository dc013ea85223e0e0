/** The parts of Python's `str` that the argument helpers rely on:
    `find` of a single character, `split` on a one-character separator,
    `sep.join(parts)` and the no-argument `strip()`. */
module PyStr {
  import opened Wrappers

  /** The characters for which Python's `str.isspace()` holds, and so the
      characters that `str.strip()` with no argument removes. The ASCII
      blanks are in it; every member is either an ASCII control character
      or blank, or lies between U+0085 and U+3000, so no printable ASCII
      character is whitespace. */
  predicate IsSpace(c: char)
    ensures ('\t' <= c <= '\r' || c == ' ') ==> IsSpace(c)
    ensures IsSpace(c) ==> c <= ' ' || '\U{85}' <= c <= '\U{3000}'
  {
    ('\t' <= c <= '\r') || ('\U{1C}' <= c <= '\U{1F}') || c == ' '
    || c == '\U{85}' || c == '\U{A0}' || c == '\U{1680}'
    || ('\U{2000}' <= c <= '\U{200A}') || c == '\U{2028}' || c == '\U{2029}'
    || c == '\U{202F}' || c == '\U{205F}' || c == '\U{3000}'
  }

  /** The whitespace set covers the ASCII blanks and the Unicode line and
      paragraph separators, and no printable ASCII character. */
  lemma IsSpaceCases()
    ensures IsSpace(' ') && IsSpace('\t') && IsSpace('\n') && IsSpace('\r')
    ensures IsSpace('\U{0B}') && IsSpace('\U{0C}') && IsSpace('\U{A0}')
    ensures IsSpace('\U{2028}') && IsSpace('\U{2029}') && IsSpace('\U{3000}')
    ensures forall c :: '!' <= c <= '~' ==> !IsSpace(c)
  {
  }

  predicate AllSpace(s: string) {
    forall k :: 0 <= k < |s| ==> IsSpace(s[k])
  }

  /** A string with no whitespace at either end. */
  predicate IsStripped(s: string) {
    s == [] || (!IsSpace(s[0]) && !IsSpace(s[|s| - 1]))
  }

  /** `s.find(c)`: the index of the first occurrence of `c`, or `None`
      where Python returns -1. */
  function Find(s: string, c: char): (r: Option<nat>)
    ensures r.None? <==> c !in s
    ensures r.Some? ==> r.value < |s| && s[r.value] == c && c !in s[..r.value]
  {
    if s == [] then None
    else if s[0] == c then Some(0)
    else match Find(s[1..], c)
      case None => None
      case Some(i) =>
        assert s[..i + 1] == [s[0]] + s[1..][..i];
        Some(i + 1)
  }

  /** A string is what comes before position `i`, the character there,
      and what comes after it. */
  lemma CutAt(s: string, i: nat)
    requires i < |s|
    ensures s == s[..i] + [s[i]] + s[i + 1..]
  {
  }

  /** The first occurrence is the only position that holds `c` and has no
      `c` before it. */
  lemma FindIsFirst(s: string, c: char, i: nat)
    requires i < |s| && s[i] == c && c !in s[..i]
    ensures Find(s, c) == Some(i)
  {
    var j := Find(s, c).value;
    assert forall k :: 0 <= k < i ==> s[k] == s[..i][k];
    assert forall k :: 0 <= k < j ==> s[k] == s[..j][k];
  }

  /** `s.split(sep)`: the pieces of `s` between occurrences of `sep`,
      left to right. Never empty: a string with no `sep` splits into
      itself, and the empty string into `[""]`. */
  function Split(s: string, sep: char): (parts: seq<string>)
    ensures |parts| >= 1
    ensures |parts| == 1 <==> sep !in s
    decreases |s|
  {
    match Find(s, sep)
    case None => [s]
    case Some(i) => [s[..i]] + Split(s[i + 1..], sep)
  }

  /** The total length of a sequence of sequences, such as strings. */
  function TotalLength<T>(parts: seq<seq<T>>): nat
  {
    if parts == [] then 0 else |parts[0]| + TotalLength(parts[1..])
  }

  /** `sep.join(parts)`: the pieces with one separator between each two
      neighbours. */
  function Join(sep: char, parts: seq<string>): (r: string)
    ensures |parts| > 0 ==> |r| == TotalLength(parts) + |parts| - 1
    ensures |parts| > 0 ==> parts[0] <= r
  {
    if |parts| == 0 then []
    else if |parts| == 1 then parts[0]
    else parts[0] + [sep] + Join(sep, parts[1..])
  }

  /** Joining a piece in front of at least one more piece puts the
      separator between them. */
  lemma JoinCons(sep: char, p: string, rest: seq<string>)
    requires |rest| >= 1
    ensures Join(sep, [p] + rest) == p + [sep] + Join(sep, rest)
  {
    assert ([p] + rest)[1..] == rest;
  }

  /** Splitting at the first separator: the piece in front of it, then
      the split of what follows it. */
  lemma SplitAt(s: string, sep: char, i: nat)
    requires Find(s, sep) == Some(i)
    ensures Split(s, sep) == [s[..i]] + Split(s[i + 1..], sep)
  {
  }

  /** Joining the pieces of a split with the same separator gives back the
      original string. */
  lemma {:induction false} JoinSplit(s: string, sep: char)
    ensures Join(sep, Split(s, sep)) == s
    decreases |s|
  {
    if sep in s {
      var i := Find(s, sep).value;
      var rest := s[i + 1..];
      SplitAt(s, sep, i);
      JoinCons(sep, s[..i], Split(rest, sep));
      JoinSplit(rest, sep);
      CutAt(s, i);
    }
  }

  /** No piece of a split holds the separator. */
  lemma {:induction false} SplitPiecesHaveNoSeparator(s: string, sep: char)
    ensures forall k :: 0 <= k < |Split(s, sep)| ==> sep !in Split(s, sep)[k]
    decreases |s|
  {
    match Find(s, sep)
    case None =>
    case Some(i) =>
      SplitPiecesHaveNoSeparator(s[i + 1..], sep);
      assert Split(s, sep)[1..] == Split(s[i + 1..], sep);
  }

  /** A split yields one more piece than there are separators. */
  lemma {:induction false} SplitCount(s: string, sep: char)
    ensures |Split(s, sep)| == multiset(s)[sep] + 1
    decreases |s|
  {
    match Find(s, sep)
    case None =>
      assert multiset(s)[sep] == 0;
    case Some(i) =>
      var rest := s[i + 1..];
      SplitCount(rest, sep);
      CutAt(s, i);
      assert multiset(s) == multiset(s[..i]) + multiset{sep} + multiset(rest);
      assert multiset(s[..i])[sep] == 0;
  }

  /** Splitting is the inverse of joining pieces that hold no separator. */
  lemma {:induction false} SplitJoin(parts: seq<string>, sep: char)
    requires |parts| >= 1
    requires forall k :: 0 <= k < |parts| ==> sep !in parts[k]
    ensures Split(Join(sep, parts), sep) == parts
    decreases |parts|
  {
    var first := parts[0];
    if |parts| == 1 {
      assert Join(sep, parts) == first && sep !in first;
    } else {
      var rest := Join(sep, parts[1..]);
      assert parts == [first] + parts[1..];
      JoinCons(sep, first, parts[1..]);
      var s := first + [sep] + rest;
      assert s[..|first|] == first;
      assert s[|first| + 1..] == rest;
      FindIsFirst(s, sep, |first|);
      SplitAt(s, sep, |first|);
      SplitJoin(parts[1..], sep);
    }
  }

  /** The number of whitespace characters at the start of `s`. */
  function LeadingSpace(s: string): (n: nat)
    ensures n <= |s| && AllSpace(s[..n])
    ensures n < |s| ==> !IsSpace(s[n])
  {
    if s != [] && IsSpace(s[0]) then
      var n := LeadingSpace(s[1..]);
      assert s[..n + 1] == [s[0]] + s[1..][..n];
      n + 1
    else 0
  }

  /** The number of whitespace characters at the end of `s`. */
  function TrailingSpace(s: string): (n: nat)
    ensures n <= |s| && AllSpace(s[|s| - n..])
    ensures n < |s| ==> !IsSpace(s[|s| - n - 1])
  {
    if s != [] && IsSpace(s[|s| - 1]) then
      var init := s[..|s| - 1];
      var n := TrailingSpace(init);
      assert s[|s| - (n + 1)..] == init[|init| - n..] + [s[|s| - 1]];
      n + 1
    else 0
  }

  /** `s.strip()`: the text between the leading and the trailing whitespace.
      It starts right after the leading whitespace, only whitespace follows
      it, and it has none at its own ends. */
  function Strip(s: string): (r: string)
    ensures IsStripped(r)
    ensures LeadingSpace(s) + |r| <= |s|
    ensures r == s[LeadingSpace(s)..LeadingSpace(s) + |r|]
    ensures AllSpace(s[LeadingSpace(s) + |r|..])
  {
    var i := LeadingSpace(s);
    var t := s[i..];
    var n := TrailingSpace(t);
    var r := t[..|t| - n];
    assert r == s[i..i + |r|];
    assert s[i + |r|..] == t[|t| - n..];
    assert r != [] ==> r[0] == s[i] && r[|r| - 1] == t[|t| - n - 1];
    r
  }

  /** Whitespace in front of text that does not start with whitespace is
      exactly what counts as leading. */
  lemma {:induction false} LeadingSpaceOf(pre: string, t: string)
    requires AllSpace(pre) && (t == [] || !IsSpace(t[0]))
    ensures LeadingSpace(pre + t) == |pre|
    decreases |pre|
  {
    if pre != [] {
      assert (pre + t)[1..] == pre[1..] + t;
      LeadingSpaceOf(pre[1..], t);
    }
  }

  /** Whitespace behind text that does not end with whitespace is exactly
      what counts as trailing. */
  lemma {:induction false} TrailingSpaceOf(t: string, post: string)
    requires AllSpace(post) && (t == [] || !IsSpace(t[|t| - 1]))
    ensures TrailingSpace(t + post) == |post|
    decreases |post|
  {
    if post != [] {
      var last := |post| - 1;
      assert (t + post)[..|t + post| - 1] == t + post[..last];
      TrailingSpaceOf(t, post[..last]);
    }
  }

  /** Leading and trailing whitespace are exactly what `strip` removes:
      whatever whitespace surrounds a stripped string, stripping recovers
      that string. */
  lemma StripRecovers(pre: string, mid: string, post: string)
    requires AllSpace(pre) && AllSpace(post) && IsStripped(mid)
    ensures Strip(pre + mid + post) == mid
  {
    var s := pre + mid + post;
    if mid == [] {
      assert s == (pre + post) + [];
      LeadingSpaceOf(pre + post, []);
    } else {
      assert s == pre + (mid + post);
      LeadingSpaceOf(pre, mid + post);
      assert s[|pre|..] == mid + post;
      TrailingSpaceOf(mid, post);
    }
  }

  /** Stripping twice is the same as stripping once. */
  lemma StripIdempotent(s: string)
    ensures Strip(Strip(s)) == Strip(s)
  {
    StripRecovers([], Strip(s), []);
    assert [] + Strip(s) + [] == Strip(s);
  }

  /** Stripping keeps only characters of the input. */
  lemma StripKeepsCharacters(s: string, c: char)
    requires c in Strip(s)
    ensures c in s
  {
    var r := Strip(s);
    var i := LeadingSpace(s);
    var k :| 0 <= k < |r| && r[k] == c;
    assert s[i + k] == c;
  }

  /** A word without surrounding whitespace is left as it is. */
  lemma StripBareWordExample()
    ensures Strip("foo") == "foo"
  {
    StripRecovers([], "foo", []);
    assert [] + "foo" + [] == "foo";
  }

  /** Blanks on both sides of a word are removed. */
  lemma StripSpacedWordExample()
    ensures Strip(" foo ") == "foo"
  {
    StripRecovers(" ", "foo", " ");
    assert " " + "foo" + " " == " foo ";
  }
}
