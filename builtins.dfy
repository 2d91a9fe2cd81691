/** The Python built-in string and sequence operations that the podcast demo relies on,
    with the semantics CPython gives them: str.isspace, str.strip(), str.split(),
    sep.join(parts), s.rsplit(' ', 1)[0] and the slices s[start:] and s[:stop]. */
module Builtins {

  function Min(a: int, b: int): int {
    if a <= b then a else b
  }

  /** The characters str.isspace() accepts, which str.split() and str.strip() treat as
      whitespace (CPython's list: Unicode White_Space plus the separators U+001C..U+001F). */
  predicate IsSpace(c: char) {
    || '\U{9}' <= c <= '\U{D}'
    || '\U{1C}' <= c <= ' '
    || c == '\U{85}' || c == '\U{A0}' || c == '\U{1680}'
    || '\U{2000}' <= c <= '\U{200A}'
    || c == '\U{2028}' || c == '\U{2029}' || c == '\U{202F}' || c == '\U{205F}' || c == '\U{3000}'
  }

  /** Every character of s is whitespace. */
  predicate AllSpace(s: string) {
    forall i :: 0 <= i < |s| ==> IsSpace(s[i])
  }

  /** A word of str.split(): non-empty, without whitespace. */
  predicate IsWord(w: string) {
    w != [] && forall i :: 0 <= i < |w| ==> !IsSpace(w[i])
  }

  // ---------------------------------------------------------------------------
  // str.strip()

  /** s without its leading whitespace: the longest suffix of s that does not start
      with whitespace. */
  function TrimStart(s: string): (r: string)
    ensures |r| <= |s| && r == s[|s| - |r|..]
    ensures r == [] || !IsSpace(r[0])
  {
    if s != [] && IsSpace(s[0]) then
      var r := TrimStart(s[1..]);
      assert s[1..][|s| - 1 - |r|..] == s[|s| - |r|..];
      r
    else s
  }

  /** What TrimStart drops is whitespace. */
  lemma {:induction false} TrimStartDropsSpace(s: string)
    ensures AllSpace(s[..|s| - |TrimStart(s)|])
  {
    if s != [] && IsSpace(s[0]) {
      var r := TrimStart(s[1..]);
      TrimStartDropsSpace(s[1..]);
      assert TrimStart(s) == r;
      forall i | 0 <= i < |s| - |r| ensures IsSpace(s[i]) {
        if 0 < i {
          assert s[i] == s[1..][..|s| - 1 - |r|][i - 1];
        }
      }
    }
  }

  /** s without its trailing whitespace: the longest prefix of s that does not end
      with whitespace. */
  function TrimEnd(s: string): (r: string)
    ensures |r| <= |s| && r == s[..|r|]
    ensures AllSpace(s[|r|..])
    ensures r == [] || !IsSpace(r[|r| - 1])
  {
    if s != [] && IsSpace(s[|s| - 1]) then
      var r := TrimEnd(s[..|s| - 1]);
      assert s[..|s| - 1][..|r|] == s[..|r|];
      assert AllSpace(s[|r|..]) by {
        forall i | |r| <= i < |s| ensures IsSpace(s[i]) {
          if i < |s| - 1 {
            assert s[i] == s[..|s| - 1][|r|..][i - |r|];
          }
        }
      }
      r
    else s
  }

  /** r is the slice s[a..a + |r|] and everything of s around it is whitespace. */
  ghost predicate StrippedAt(s: string, a: int, r: string) {
    0 <= a && a + |r| <= |s| && s[a..a + |r|] == r
    && AllSpace(s[..a]) && AllSpace(s[a + |r|..])
  }

  /** str.strip(): s with whitespace removed from both ends. */
  function Strip(s: string): (r: string)
    ensures |r| <= |s|
    ensures r == [] || (!IsSpace(r[0]) && !IsSpace(r[|r| - 1]))
  {
    TrimEnd(TrimStart(s))
  }

  /** What str.strip() removes is whitespace and nothing else: its result is a slice
      of s with only whitespace on either side. */
  lemma StripIsSlice(s: string)
    ensures exists a :: StrippedAt(s, a, Strip(s))
  {
    var t := TrimStart(s);
    var r := TrimEnd(t);
    var a := |s| - |t|;
    assert r == Strip(s);
    assert s[a..a + |r|] == r by {
      assert t == s[a..];
      assert s[a..][..|r|] == s[a..a + |r|];
    }
    TrimStartDropsSpace(s);
    assert AllSpace(s[..a]);
    assert AllSpace(s[a + |r|..]) by {
      assert s[a + |r|..] == t[|r|..];
    }
    assert StrippedAt(s, a, r);
  }

  /** Stripping text that neither starts nor ends with whitespace leaves it unchanged. */
  lemma StripUnpadded(s: string)
    requires s == [] || (!IsSpace(s[0]) && !IsSpace(s[|s| - 1]))
    ensures Strip(s) == s
  {
  }

  // ---------------------------------------------------------------------------
  // sep.join(parts)

  /** sep.join(parts): the parts in order with sep between neighbours. */
  function JoinWith(sep: string, parts: seq<string>): (r: string)
    ensures parts == [] ==> r == []
    ensures parts != [] ==> |parts[0]| <= |r| && r[..|parts[0]|] == parts[0]
  {
    if parts == [] then []
    else if |parts| == 1 then parts[0]
    else parts[0] + sep + JoinWith(sep, parts[1..])
  }

  // ---------------------------------------------------------------------------
  // str.split()

  /** The longest prefix of s that holds no whitespace. */
  function WordPrefix(s: string): (w: string)
    ensures |w| <= |s| && w == s[..|w|]
    ensures forall i :: 0 <= i < |w| ==> !IsSpace(w[i])
    ensures |w| == |s| || IsSpace(s[|w|])
    ensures s != [] && !IsSpace(s[0]) ==> IsWord(w)
  {
    if s == [] || IsSpace(s[0]) then [] else [s[0]] + WordPrefix(s[1..])
  }

  /** str.split() with no argument: the maximal runs of non-whitespace characters
      of s, in order. */
  function Split(s: string): seq<string>
    decreases |s|
  {
    var t := TrimStart(s);
    if t == [] then []
    else
      var w := WordPrefix(t);
      assert w != [];
      [w] + Split(t[|w|..])
  }

  /** Every piece str.split() returns is a word. */
  lemma {:induction false} SplitWords(s: string)
    ensures forall k :: 0 <= k < |Split(s)| ==> IsWord(Split(s)[k])
    decreases |s|
  {
    var t := TrimStart(s);
    if t != [] {
      var w := WordPrefix(t);
      var rest := t[|w|..];
      SplitWords(rest);
      var words := Split(s);
      assert words == [w] + Split(rest);
      forall k | 0 <= k < |words| ensures IsWord(words[k]) {
        if 0 < k {
          assert words[k] == Split(rest)[k - 1];
        }
      }
    }
  }

  /** The non-whitespace characters of s, in order. */
  function NonSpace(s: string): string {
    if s == [] then []
    else (if IsSpace(s[0]) then [] else [s[0]]) + NonSpace(s[1..])
  }

  lemma {:induction false} NonSpaceAppend(a: string, b: string)
    ensures NonSpace(a + b) == NonSpace(a) + NonSpace(b)
    decreases |a|
  {
    if a == [] {
      assert a + b == b;
    } else {
      assert (a + b)[1..] == a[1..] + b;
      NonSpaceAppend(a[1..], b);
    }
  }

  lemma {:induction false} NonSpaceOfSpaces(s: string)
    requires AllSpace(s)
    ensures NonSpace(s) == []
    decreases |s|
  {
    if s != [] {
      assert AllSpace(s[1..]) by {
        forall i | 0 <= i < |s[1..]| ensures IsSpace(s[1..][i]) {
          assert s[1..][i] == s[i + 1];
        }
      }
      NonSpaceOfSpaces(s[1..]);
    }
  }

  lemma {:induction false} NonSpaceOfWord(w: string)
    requires forall i :: 0 <= i < |w| ==> !IsSpace(w[i])
    ensures NonSpace(w) == w
    decreases |w|
  {
    if w != [] {
      NonSpaceOfWord(w[1..]);
      assert w == [w[0]] + w[1..];
    }
  }

  /** Joining a part in front of further parts. */
  lemma JoinCons(sep: string, p: string, parts: seq<string>)
    ensures JoinWith(sep, [p] + parts) == if parts == [] then p else p + sep + JoinWith(sep, parts)
  {
    assert ([p] + parts)[1..] == parts;
  }

  /** One step of str.split(): the first word, then the split of what follows it. */
  lemma SplitStep(s: string)
    requires TrimStart(s) != []
    ensures Split(s) == [WordPrefix(TrimStart(s))] + Split(TrimStart(s)[|WordPrefix(TrimStart(s))|..])
  {
  }

  /** Leading whitespace holds no non-whitespace character. */
  lemma NonSpaceAfterTrim(s: string)
    ensures NonSpace(s) == NonSpace(TrimStart(s))
  {
    var t := TrimStart(s);
    TrimStartDropsSpace(s);
    assert s == s[..|s| - |t|] + t;
    NonSpaceAppend(s[..|s| - |t|], t);
    NonSpaceOfSpaces(s[..|s| - |t|]);
  }

  /** The non-whitespace characters of t are those of its first word, then those of
      the rest. */
  lemma NonSpaceAfterWord(t: string)
    ensures NonSpace(t) == WordPrefix(t) + NonSpace(t[|WordPrefix(t)|..])
  {
    var w := WordPrefix(t);
    assert t == w + t[|w|..];
    NonSpaceAppend(w, t[|w|..]);
    NonSpaceOfWord(w);
  }

  /** Joining with the empty separator is concatenation. */
  lemma JoinEmptyCons(w: string, parts: seq<string>)
    ensures JoinWith("", [w] + parts) == w + JoinWith("", parts)
  {
    JoinCons("", w, parts);
    if parts == [] {
      assert w + JoinWith("", parts) == w;
    } else {
      assert w + "" + JoinWith("", parts) == w + JoinWith("", parts);
    }
  }

  /** str.split() loses no character but whitespace: concatenating the words gives
      exactly the non-whitespace characters of s, in order. */
  lemma {:induction false} SplitKeepsText(s: string)
    ensures JoinWith("", Split(s)) == NonSpace(s)
    decreases |s|
  {
    var t := TrimStart(s);
    NonSpaceAfterTrim(s);
    if t != [] {
      var w := WordPrefix(t);
      var rest := t[|w|..];
      NonSpaceAfterWord(t);
      SplitStep(s);
      JoinEmptyCons(w, Split(rest));
      SplitKeepsText(rest);
    }
  }

  /** Leading whitespace does not change what str.split() returns. */
  lemma SplitSkipsSpace(c: char, s: string)
    requires IsSpace(c)
    ensures Split([c] + s) == Split(s)
  {
    assert ([c] + s)[1..] == s;
    assert TrimStart([c] + s) == TrimStart(s);
  }

  /** A word followed by whitespace or by nothing is read back whole. */
  lemma {:induction false} WordPrefixOfWord(w: string, tail: string)
    requires forall i :: 0 <= i < |w| ==> !IsSpace(w[i])
    requires tail == [] || IsSpace(tail[0])
    ensures WordPrefix(w + tail) == w
    decreases |w|
  {
    if w != [] {
      assert (w + tail)[1..] == w[1..] + tail;
      WordPrefixOfWord(w[1..], tail);
      assert w == [w[0]] + w[1..];
    } else {
      assert w + tail == tail;
    }
  }

  /** A word followed by a space and more text splits into that word and the split
      of the text. */
  lemma SplitAfterWord(w: string, rest: string)
    requires IsWord(w)
    ensures Split(w + [' '] + rest) == [w] + Split(rest)
  {
    var s := w + [' '] + rest;
    assert s == w + ([' '] + rest);
    WordPrefixOfWord(w, [' '] + rest);
    assert TrimStart(s) == s;
    SplitStep(s);
    assert s[|w|..] == [' '] + rest;
    SplitSkipsSpace(' ', rest);
  }

  /** Splitting the words joined by single spaces gives the words back. */
  lemma {:induction false} SplitJoin(words: seq<string>)
    requires forall k :: 0 <= k < |words| ==> IsWord(words[k])
    ensures Split(JoinWith(" ", words)) == words
    decreases |words|
  {
    if words == [] {
    } else if |words| == 1 {
      var w := words[0];
      assert Split(w) == [w] by {
        WordPrefixOfWord(w, []);
        assert w + [] == w;
        assert TrimStart(w) == w;
        SplitStep(w);
        assert w[|w|..] == [];
      }
    } else {
      var w := words[0];
      SplitJoin(words[1..]);
      JoinCons(" ", w, words[1..]);
      assert words == [w] + words[1..];
      SplitAfterWord(w, JoinWith(" ", words[1..]));
    }
  }

  // ---------------------------------------------------------------------------
  // s.rsplit(' ', 1)[0]

  /** The index of the last ' ' in s, or -1 when s holds none (s.rfind(' ')). */
  function LastSpace(s: string): (k: int)
    ensures -1 <= k < |s|
    ensures 0 <= k ==> s[k] == ' '
    ensures forall i :: k < i < |s| ==> s[i] != ' '
  {
    if s == [] then -1
    else if s[|s| - 1] == ' ' then |s| - 1
    else LastSpace(s[..|s| - 1])
  }

  /** s.rsplit(' ', 1)[0]: the text before the last ' ' of s, or all of s when it
      holds no ' '. */
  function RSplitHead(s: string): (h: string)
    ensures |h| <= |s| && h == s[..|h|]
    ensures ' ' in s ==> |h| < |s| && s[|h|] == ' ' && ' ' !in s[|h| + 1..]
    ensures ' ' !in s ==> h == s
  {
    var k := LastSpace(s);
    if k < 0 then s else s[..k]
  }

  // ---------------------------------------------------------------------------
  // Slices with Python's int bounds

  /** s[start:]: a negative start counts from the end; bounds are clamped. */
  function SliceFrom<T>(s: seq<T>, start: int): (r: seq<T>)
    ensures |r| <= |s| && r == s[|s| - |r|..]
    ensures 0 <= start ==> |r| == if start <= |s| then |s| - start else 0
    ensures start < 0 ==> |r| == Min(-start, |s|)
  {
    var b := if start < 0 then (if |s| + start < 0 then 0 else |s| + start)
             else (if start > |s| then |s| else start);
    s[b..]
  }

  /** s[:stop]: a negative stop counts from the end; bounds are clamped. */
  function SliceTo<T>(s: seq<T>, stop: int): (r: seq<T>)
    ensures |r| <= |s| && r == s[..|r|]
    ensures 0 <= stop ==> |r| == Min(stop, |s|)
    ensures stop < 0 ==> |r| == if -stop <= |s| then |s| + stop else 0
  {
    var b := if stop < 0 then (if |s| + stop < 0 then 0 else |s| + stop)
             else (if stop > |s| then |s| else stop);
    s[..b]
  }
}
