/** The generation client: how a streamed /api/generate response, one JSON record per
    line, becomes the text that generate and generate_quiet return.  The HTTP request
    itself is not modelled; its response body arrives as a sequence of lines whose
    JSON decoding has already been classified. */
module LlmClient {
  import opened Builtins

  datatype Option<T> = None | Some(value: T)

  /** One line of the response body as the read loop sees it: an empty line, a line
      json.loads rejects, or a record with its "response" fragment (absent or a
      string) and the truthiness of its "done" field. */
  datatype Line = Blank | Malformed | Record(response: Option<string>, done: bool)

  /** The line is a record whose "done" is true: the loop stops after it. */
  predicate Ends(line: Line) {
    line.Record? && line.done
  }

  /** The fragments a line contributes when it is read. */
  function Fragment(line: Line): seq<string> {
    if line.Record? && line.response.Some? then [line.response.value] else []
  }

  // ---------------------------------------------------------------------------
  // Consuming the stream

  /** The chunks list that the read loop builds from the lines: each record's
      fragment in arrival order, up to and including the first record that ends
      the stream; blank and malformed lines are passed over. */
  function Chunks(lines: seq<Line>): (chunks: seq<string>)
    ensures |chunks| <= |lines|
  {
    if lines == [] then []
    else if lines[0].Blank? || lines[0].Malformed? then Chunks(lines[1..])
    else if lines[0].done then Fragment(lines[0])
    else Fragment(lines[0]) + Chunks(lines[1..])
  }

  /** How many lines the loop reads: up to and including the first record whose
      "done" is true, or all of them when there is none. */
  function StopIndex(lines: seq<Line>): (n: nat)
    ensures n <= |lines|
  {
    if lines == [] then 0
    else if Ends(lines[0]) then 1
    else 1 + StopIndex(lines[1..])
  }

  /** The loop reads every line before the first record whose "done" is true, and
      stops early only right after such a record. */
  lemma {:induction false} StopIndexStops(lines: seq<Line>)
    ensures var n := StopIndex(lines);
            && (forall i :: 0 <= i < n - 1 ==> !Ends(lines[i]))
            && (n < |lines| ==> 0 < n && Ends(lines[n - 1]))
  {
    if lines != [] && !Ends(lines[0]) {
      var n := StopIndex(lines);
      StopIndexStops(lines[1..]);
      forall i | 0 <= i < n - 1 ensures !Ends(lines[i]) {
        if 0 < i {
          assert lines[i] == lines[1..][i - 1];
        }
      }
      if n < |lines| {
        assert lines[n - 1] == lines[1..][n - 2];
      }
    }
  }

  /** Every fragment of every record, read to the end and ignoring "done". */
  function Fragments(lines: seq<Line>): seq<string> {
    if lines == [] then [] else Fragment(lines[0]) + Fragments(lines[1..])
  }

  lemma {:induction false} FragmentsAppend(a: seq<Line>, b: seq<Line>)
    ensures Fragments(a + b) == Fragments(a) + Fragments(b)
    decreases |a|
  {
    if a == [] {
      assert a + b == b;
    } else {
      assert (a + b)[1..] == a[1..] + b;
      FragmentsAppend(a[1..], b);
    }
  }

  /** The chunks are exactly the fragments of the lines up to and including the
      first record whose "done" is true, in arrival order. */
  lemma {:induction false} ChunksUpToDone(lines: seq<Line>)
    ensures Chunks(lines) == Fragments(lines[..StopIndex(lines)])
    decreases |lines|
  {
    if lines != [] {
      var n := StopIndex(lines);
      assert lines[..n] == [lines[0]] + lines[..n][1..];
      if !Ends(lines[0]) {
        ChunksUpToDone(lines[1..]);
        assert lines[..n][1..] == lines[1..][..StopIndex(lines[1..])];
      } else {
        assert lines[..n][1..] == [];
      }
    }
  }

  /** Before the stream has ended, the chunks of two stretches of lines simply follow
      each other. */
  lemma {:induction false} ChunksAppend(a: seq<Line>, b: seq<Line>)
    requires forall i :: 0 <= i < |a| ==> !Ends(a[i])
    ensures Chunks(a + b) == Chunks(a) + Chunks(b)
    decreases |a|
  {
    if a == [] {
      assert a + b == b;
    } else {
      assert (a + b)[1..] == a[1..] + b;
      ChunksAppend(a[1..], b);
    }
  }

  /** Lines after the first record whose "done" is true contribute nothing. */
  lemma {:induction false} ChunksIgnoreAfterDone(a: seq<Line>, i: nat, b: seq<Line>)
    requires i < |a| && Ends(a[i])
    ensures Chunks(a + b) == Chunks(a)
    decreases |a|
  {
    assert (a + b)[0] == a[0];
    if i > 0 {
      assert (a + b)[1..] == a[1..] + b;
      ChunksIgnoreAfterDone(a[1..], i - 1, b);
    }
  }

  /** A blank or malformed line anywhere leaves the result as if it were absent: it
      adds nothing and does not stop the loop. */
  lemma {:induction false} ChunksSkipUnparsed(a: seq<Line>, line: Line, b: seq<Line>)
    requires line.Blank? || line.Malformed?
    ensures Chunks(a + [line] + b) == Chunks(a + b)
    decreases |a|
  {
    if a == [] {
      assert a + [line] + b == [line] + b;
      assert ([line] + b)[1..] == b;
      assert a + b == b;
    } else {
      assert (a + [line] + b)[0] == a[0] && (a + b)[0] == a[0];
      assert (a + [line] + b)[1..] == a[1..] + [line] + b;
      assert (a + b)[1..] == a[1..] + b;
      ChunksSkipUnparsed(a[1..], line, b);
    }
  }

  /** A record without a "response" adds nothing, and when its "done" is true it
      still ends the stream. */
  lemma {:induction false} ChunksRecordWithoutResponse(a: seq<Line>, done: bool, b: seq<Line>)
    requires forall i :: 0 <= i < |a| ==> !Ends(a[i])
    ensures Chunks(a + [Record(None, done)] + b) == if done then Chunks(a) else Chunks(a + b)
  {
    var line := Record(None, done);
    assert a + [line] + b == a + ([line] + b);
    ChunksAppend(a, [line] + b);
    assert ([line] + b)[0] == line && ([line] + b)[1..] == b;
    if done {
      assert Chunks([line] + b) == [];
      assert Chunks(a) + [] == Chunks(a);
    } else {
      assert Chunks([line] + b) == Chunks(b);
      ChunksAppend(a, b);
    }
  }

  /** Reading one line: what it adds to the chunks and whether the loop stops there. */
  lemma ReadOne(lines: seq<Line>, i: nat)
    requires i < |lines|
    ensures lines[i..][1..] == lines[i + 1..]
    ensures Chunks(lines[i..]) ==
              if lines[i].Blank? || lines[i].Malformed? then Chunks(lines[i + 1..])
              else if lines[i].done then Fragment(lines[i])
              else Fragment(lines[i]) + Chunks(lines[i + 1..])
    ensures StopIndex(lines[i..]) == if Ends(lines[i]) then 1 else 1 + StopIndex(lines[i + 1..])
  {
    assert lines[i..][0] == lines[i];
    assert lines[i..][1..] == lines[i + 1..];
  }

  /** The read loop of generate and generate_quiet: it goes through the lines,
      appends each record's fragment to chunks, and breaks after the first record
      whose "done" is true.  consumed counts the lines it read. */
  method CollectChunks(lines: seq<Line>) returns (chunks: seq<string>, consumed: nat)
    ensures chunks == Chunks(lines)
    ensures consumed == StopIndex(lines)
  {
    chunks := [];
    consumed := 0;
    while consumed < |lines|
      invariant consumed <= |lines|
      invariant chunks + Chunks(lines[consumed..]) == Chunks(lines)
      invariant StopIndex(lines) == consumed + StopIndex(lines[consumed..])
    {
      var line := lines[consumed];
      ReadOne(lines, consumed);
      consumed := consumed + 1;
      if line.Blank? {
        continue;
      }
      if line.Malformed? {
        continue;
      }
      if line.response.Some? {
        chunks := chunks + [line.response.value];
      }
      if line.done {
        break;
      }
    }
  }

  // ---------------------------------------------------------------------------
  // generate

  /** The text generate returns: the concatenated chunks with surrounding whitespace
      stripped. */
  function GeneratedText(lines: seq<Line>): string {
    Strip(JoinWith("", Chunks(lines)))
  }

  /** generate: read the stream, then strip the concatenation of its fragments.
      Echoing the fragments to the console is output only and is not modelled. */
  method Generate(lines: seq<Line>) returns (text: string)
    ensures text == GeneratedText(lines)
  {
    var chunks, consumed := CollectChunks(lines);
    text := Strip(JoinWith("", chunks));
  }

  /** The reply is made of the fragments of the lines up to and including the first
      done record, in order, and never starts or ends with whitespace. */
  lemma GeneratedTextUpToDone(lines: seq<Line>)
    ensures GeneratedText(lines) == Strip(JoinWith("", Fragments(lines[..StopIndex(lines)])))
    ensures var text := GeneratedText(lines);
            text == [] || (!IsSpace(text[0]) && !IsSpace(text[|text| - 1]))
  {
    ChunksUpToDone(lines);
  }

  // ---------------------------------------------------------------------------
  // generate_quiet

  /** The only whitespace character in t is the space. */
  ghost predicate SingleSpaced(t: string) {
    forall i :: 0 <= i < |t| && IsSpace(t[i]) ==> t[i] == ' '
  }

  /** Text in which whitespace occurs only as single spaces between non-whitespace
      characters: no other whitespace character, no space at either end, no two
      spaces in a row. */
  ghost predicate Collapsed(t: string) {
    && SingleSpaced(t)
    && (t == [] || (t[0] != ' ' && t[|t| - 1] != ' '))
    && (forall i, j :: 0 <= i < j < |t| && j == i + 1 ==> !(t[i] == ' ' && t[j] == ' '))
  }

  lemma WordIsCollapsed(w: string)
    requires IsWord(w)
    ensures Collapsed(w)
  {
    assert IsSpace(' ');
  }

  /** Two collapsed non-empty texts glued with one space are collapsed. */
  lemma CollapsedGlue(a: string, b: string)
    requires Collapsed(a) && Collapsed(b) && a != [] && b != []
    ensures Collapsed(a + [' '] + b)
  {
    var t := a + [' '] + b;
    forall i | 0 <= i < |t|
      ensures IsSpace(t[i]) ==> t[i] == ' '
      ensures i < |t| - 1 && t[i] == ' ' ==> t[i + 1] != ' '
    {
      if i < |a| {
        assert t[i] == a[i];
        if i + 1 < |a| {
          assert t[i + 1] == a[i + 1];
        }
      } else if i > |a| {
        assert t[i] == b[i - |a| - 1];
        if i + 1 < |t| {
          assert t[i + 1] == b[i - |a|];
        }
      } else {
        assert t[i + 1] == b[0];
      }
    }
  }

  lemma {:induction false} CollapsedJoin(words: seq<string>)
    requires forall k :: 0 <= k < |words| ==> IsWord(words[k])
    ensures Collapsed(JoinWith(" ", words))
    decreases |words|
  {
    if |words| == 1 {
      WordIsCollapsed(words[0]);
    } else if |words| > 1 {
      CollapsedJoin(words[1..]);
      WordIsCollapsed(words[0]);
      assert JoinWith(" ", words) == words[0] + [' '] + JoinWith(" ", words[1..]);
      CollapsedGlue(words[0], JoinWith(" ", words[1..]));
    }
  }

  /** ' '.join(s.split()) (llm_client.py:86): the words of s, one space apart. */
  function Collapse(s: string): string {
    JoinWith(" ", Split(s))
  }

  /** Collapsing leaves collapsed text with the same words, and so the same
      non-whitespace characters in the same order. */
  lemma CollapseKeepsWords(s: string)
    ensures Collapsed(Collapse(s))
    ensures Split(Collapse(s)) == Split(s)
    ensures JoinWith("", Split(Collapse(s))) == NonSpace(s)
  {
    var words := Split(s);
    SplitWords(s);
    CollapsedJoin(words);
    SplitJoin(words);
    SplitKeepsText(s);
  }

  /** The text after the first space of a collapsed text is collapsed. */
  lemma CollapsedTail(t: string, k: nat)
    requires Collapsed(t) && k < |t| && t[k] == ' '
    ensures Collapsed(t[k + 1..]) && t[k + 1..] != [] && !IsSpace(t[k + 1])
  {
    var u := t[k + 1..];
    forall i | 0 <= i < |u|
      ensures u[i] == t[k + 1 + i]
    {
    }
  }

  /** str.split() reads a non-empty collapsed text as its first word, then the split
      of the text after the space that ends the word, if any. */
  lemma CollapsedSplitStep(t: string) returns (w: string, rest: string)
    requires Collapsed(t) && t != []
    ensures |rest| < |t|
    ensures rest == [] ==> t == w && Split(t) == [w]
    ensures rest != [] ==> t == w + " " + rest && Collapsed(rest) && Split(t) == [w] + Split(rest) && Split(rest) != []
  {
    w := WordPrefix(t);
    assert Split(t) == [w] + Split(t[|w|..]) by {
      assert !IsSpace(t[0]);
      assert TrimStart(t) == t;
      SplitStep(t);
    }
    if |w| == |t| {
      rest := [];
      assert w == t;
      assert t[|w|..] == [];
    } else {
      rest := CollapsedSplitMore(t, w);
    }
  }

  lemma CollapsedSplitMore(t: string, w: string) returns (rest: string)
    requires Collapsed(t) && w == WordPrefix(t) && |w| < |t|
    ensures rest == t[|w| + 1..]
    ensures t == w + " " + rest
    ensures Collapsed(rest) && rest != []
    ensures Split(rest) != []
  {
    var k := |w|;
    rest := t[k + 1..];
    assert t[k] == ' ';
    assert t == t[..k] + [t[k]] + t[k + 1..];
    CollapsedTail(t, k);
    assert Split(rest) != [] by {
      assert TrimStart(rest) == rest;
      SplitStep(rest);
    }
  }

  /** Collapsed text is exactly what ' '.join(s.split()) leaves unchanged. */
  lemma {:induction false} CollapseKeepsCollapsed(t: string)
    requires Collapsed(t)
    ensures Collapse(t) == t
    decreases |t|
  {
    if t != [] {
      var w, rest := CollapsedSplitStep(t);
      if rest != [] {
        CollapseKeepsCollapsed(rest);
        JoinCons(" ", w, Split(rest));
      }
    }
  }

  /** Collapsing twice is collapsing once. */
  lemma CollapseIdempotent(s: string)
    ensures Collapse(Collapse(s)) == Collapse(s)
  {
    CollapseKeepsWords(s);
    CollapseKeepsCollapsed(Collapse(s));
  }

  /** The limit step of generate_quiet (llm_client.py:89-94): text over maxLength
      characters is cut to text[:maxLength], everything from the last space of the
      cut on is dropped, and the marker is appended; otherwise text is stripped. */
  function LimitLength(text: string, maxLength: int, marker: string): (r: string)
    ensures 0 <= maxLength ==> |r| <= maxLength + |marker|
  {
    if |text| > maxLength then RSplitHead(SliceTo(text, maxLength)) + marker
    else Strip(text)
  }

  /** The marker llm_client.py:91 appends, as the file spells it: the UTF-8 encoding of
      the ellipsis read back as Latin-1/CP1252, three characters. */
  const WrittenMarker: string := "\U{E2}\U{20AC}\U{A6}"

  /** The marker evidently intended: the single ellipsis character. */
  const Ellipsis: string := "\U{2026}"

  /** With the marker as written, a cut text ends in three stray characters, so six
      characters come back for a limit of three. */
  lemma WrittenMarkerOverruns()
    ensures LimitLength("abcdef", 3, WrittenMarker) == "abc" + WrittenMarker
    ensures |LimitLength("abcdef", 3, WrittenMarker)| == 6
  {
    assert SliceTo("abcdef", 3) == "abc";
    assert LastSpace("abc") == -1 by {
      assert LastSpace("ab") == -1 by {
        assert LastSpace("a") == -1 by {
          assert "a"[..0] == [];
        }
        assert "ab"[..1] == "a";
      }
      assert "abc"[..2] == "ab";
    }
  }

  /** With the ellipsis, a cut text is a prefix of at most maxLength characters
      followed by exactly one ellipsis character. */
  lemma EllipsisTruncation(text: string, maxLength: int)
    requires 0 <= maxLength < |text|
    ensures var r := LimitLength(text, maxLength, Ellipsis);
            && |r| <= maxLength + 1
            && r[|r| - 1] == '\U{2026}'
            && r[..|r| - 1] == text[..|r| - 1]
  {
    var p := RSplitHead(SliceTo(text, maxLength));
    var r := LimitLength(text, maxLength, Ellipsis);
    assert r == p + Ellipsis;
    assert r[..|r| - 1] == p;
  }

  /** Collapsed text within the limit comes back unchanged: the strip is a no-op. */
  lemma LimitLengthKeepsShort(text: string, maxLength: int, marker: string)
    requires Collapsed(text) && |text| <= maxLength
    ensures LimitLength(text, maxLength, marker) == text
  {
    assert text != [] ==> !IsSpace(text[0]) && !IsSpace(text[|text| - 1]);
    StripUnpadded(text);
  }

  /** Collapsed text over the limit becomes P + marker, where P is a prefix of the
      text no longer than the limit.  When text[:maxLength] holds a space, P is
      non-empty, ends in a non-space and stops right before the last such space, so no
      word is split; when it holds none, P is all maxLength characters. */
  lemma LimitLengthCutsAtSpace(text: string, maxLength: int, marker: string)
    requires Collapsed(text) && 0 <= maxLength < |text|
    ensures var r := LimitLength(text, maxLength, marker);
            var p := r[..|r| - |marker|];
            && |marker| <= |r| && r == p + marker
            && |p| <= maxLength && p == text[..|p|]
            && (' ' in text[..maxLength] ==>
                  0 < |p| < maxLength && text[|p|] == ' ' && text[|p| - 1] != ' '
                  && ' ' !in text[|p| + 1..maxLength])
            && (' ' !in text[..maxLength] ==> |p| == maxLength)
  {
    var cut := text[..maxLength];
    assert SliceTo(text, maxLength) == cut;
    var p := RSplitHead(cut);
    var r := LimitLength(text, maxLength, marker);
    assert r == p + marker;
    assert r[..|r| - |marker|] == p;
    if ' ' in cut {
      assert cut[|p|] == ' ' && text[|p|] == ' ';
      assert text[0] != ' ';
      assert cut[|p| + 1..] == text[|p| + 1..maxLength];
    }
  }

  /** The text generate_quiet returns for the given response lines. */
  function QuietText(lines: seq<Line>, maxLength: int, marker: string): string {
    LimitLength(Collapse(JoinWith("", Chunks(lines))), maxLength, marker)
  }

  lemma SingleSpacedConcat(a: string, b: string)
    requires SingleSpaced(a) && SingleSpaced(b)
    ensures SingleSpaced(a + b)
  {
    forall i | 0 <= i < |a + b| ensures IsSpace((a + b)[i]) ==> (a + b)[i] == ' ' {
      if i < |a| {
        assert (a + b)[i] == a[i];
      } else {
        assert (a + b)[i] == b[i - |a|];
      }
    }
  }

  /** The limit step keeps collapsed text free of whitespace other than the space, as
      long as the marker holds none. */
  lemma LimitLengthSingleSpaced(text: string, maxLength: int, marker: string)
    requires Collapsed(text) && SingleSpaced(marker)
    ensures SingleSpaced(LimitLength(text, maxLength, marker))
  {
    if |text| > maxLength {
      var p := RSplitHead(SliceTo(text, maxLength));
      assert p == text[..|p|];
      forall i | 0 <= i < |p| ensures IsSpace(p[i]) ==> p[i] == ' ' {
        assert p[i] == text[i];
      }
      SingleSpacedConcat(p, marker);
    } else {
      assert text != [] ==> !IsSpace(text[0]) && !IsSpace(text[|text| - 1]);
      StripUnpadded(text);
    }
  }

  /** generate_quiet's result holds no newline, tab or other whitespace except the
      single space, as long as the marker holds none. */
  lemma QuietTextSingleSpaced(lines: seq<Line>, maxLength: int, marker: string)
    requires SingleSpaced(marker)
    ensures SingleSpaced(QuietText(lines, maxLength, marker))
  {
    CollapseKeepsWords(JoinWith("", Chunks(lines)));
    LimitLengthSingleSpaced(Collapse(JoinWith("", Chunks(lines))), maxLength, marker);
  }

  /** generate_quiet: read the stream, collapse whitespace, limit the length. */
  method GenerateQuiet(lines: seq<Line>, maxLength: int, marker: string) returns (text: string)
    ensures text == QuietText(lines, maxLength, marker)
    ensures 0 <= maxLength ==> |text| <= maxLength + |marker|
  {
    var chunks, consumed := CollectChunks(lines);
    text := Collapse(JoinWith("", chunks));
    assert text == Collapse(JoinWith("", Chunks(lines)));
    if |text| > maxLength {
      var cut := SliceTo(text, maxLength);
      cut := RSplitHead(cut) + marker;
      return cut;
    }
    text := Strip(text);
  }
}
