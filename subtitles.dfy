/** The recognition response as the subtitle step reads it, and the SRT
    document built from its sentences. */
module Subtitles {
  import opened Wrappers
  import opened Decimal
  import TimeCode

  /** One recognised sentence; every key of the backend's dictionary may be missing. */
  datatype Sentence = Sentence(beginTime: Option<nat>, endTime: Option<nat>, text: Option<string>)

  /** The two keys under which backend versions have put the sentence list. */
  datatype Output = Output(sentence: Option<seq<Sentence>>, sentences: Option<seq<Sentence>>)

  /** What `rec.call` returns. */
  datatype Response = Response(statusCode: int, output: Output, code: string, message: string)

  /** The two errors the subtitle step raises itself. */
  datatype Error =
    | NoSpeechDetected
    | ServiceError(code: string, message: string)

  /** One SRT block: its index, its time range and its text. */
  datatype Entry = Entry(index: nat, begin: nat, end: nat, text: string)

  const OkStatus: int := 200

  /** The first non-empty list of a chain of lookups, or `[]` when all are empty. */
  function FirstNonEmpty<T>(candidates: seq<seq<T>>): (r: seq<T>)
    ensures r == [] <==> forall i :: 0 <= i < |candidates| ==> candidates[i] == []
    ensures r != [] ==> exists i :: 0 <= i < |candidates| && r == candidates[i] &&
                                    forall j :: 0 <= j < i ==> candidates[j] == []
  {
    if candidates == [] then []
    else if candidates[0] != [] then candidates[0]
    else FirstNonEmpty(candidates[1..])
  }

  /** The lookups tried in order: `output.get('sentence', [])`, then `output.get('sentences', [])`. */
  function Lookups(out: Output): seq<seq<Sentence>> {
    [out.sentence.GetOr([]), out.sentences.GetOr([])]
  }

  /** The sentence list used: the primary key's when non-empty, else the alternate key's. */
  lemma SelectedSentences(out: Output)
    ensures out.sentence.GetOr([]) != [] ==> FirstNonEmpty(Lookups(out)) == out.sentence.value
    ensures out.sentence.GetOr([]) == [] ==> FirstNonEmpty(Lookups(out)) == out.sentences.GetOr([])
  {
    var chain := Lookups(out);
    assert chain[1..] == [out.sentences.GetOr([])];
    assert chain[1..][1..] == [];
  }

  /** A sentence gets an entry when it has a begin time, an end time and
      a non-empty text. The range is not checked for `end >= begin`. */
  predicate HasEntry(s: Sentence) {
    s.beginTime.Some? && s.endTime.Some? && s.text.Some? && s.text.value != []
  }

  function EntryFor(index: nat, s: Sentence): Entry
    requires HasEntry(s)
  {
    Entry(index, s.beginTime.value, s.endTime.value, s.text.value)
  }

  /** The entries of a sentence list: each sentence with an entry, in
      order, indexed by its 1-based position in the whole list. */
  function Assemble(ss: seq<Sentence>): (r: seq<Entry>)
    ensures |r| <= |ss|
    ensures forall j :: 0 <= j < |r| ==> 1 <= r[j].index <= |ss|
  {
    if ss == [] then []
    else
      var k := |ss| - 1;
      Assemble(ss[..k]) + if HasEntry(ss[k]) then [EntryFor(k + 1, ss[k])] else []
  }

  /** `f"{format_time_srt(begin)} --> {format_time_srt(end)}"`. */
  function TimeLine(begin: nat, end: nat): string {
    TimeCode.Format(begin) + " --> " + TimeCode.Format(end)
  }

  /** The time line reads back as its two offsets around the arrow. */
  lemma TimeLineReadsBack(begin: nat, end: nat)
    ensures var r, n := TimeLine(begin, end), |TimeLine(begin, end)| - |TimeCode.Format(end)|;
      && 17 <= n <= |r|
      && r[n - 5..n] == " --> "
      && TimeCode.Parse(r[..n - 5]) == Some(begin)
      && TimeCode.Parse(r[n..]) == Some(end)
  {
    var b, e := TimeCode.Format(begin), TimeCode.Format(end);
    assert TimeLine(begin, end) == b + " --> " + e;
    TimeCode.ParseFormat(begin);
    TimeCode.ParseFormat(end);
    ArrowParts(b, e, begin, end);
  }

  /** Two time codes around the arrow are read back from their offsets. */
  lemma ArrowParts(b: string, e: string, x: nat, y: nat)
    requires |b| >= 12 && TimeCode.Parse(b) == Some(x) && TimeCode.Parse(e) == Some(y)
    ensures var r, n := b + " --> " + e, |b + " --> " + e| - |e|;
      && 17 <= n <= |r|
      && r[n - 5..n] == " --> "
      && TimeCode.Parse(r[..n - 5]) == Some(x)
      && TimeCode.Parse(r[n..]) == Some(y)
  {
    var r := b + " --> " + e;
    Around(b, " --> ", e);
    assert |r| - |e| - 5 == |b|;
  }

  /** The three parts of a concatenation are found again at their offsets. */
  lemma Around(a: string, sep: string, b: string)
    ensures (a + sep + b)[..|a|] == a
    ensures (a + sep + b)[|a|..|a| + |sep|] == sep
    ensures (a + sep + b)[|a| + |sep|..] == b
  {
  }

  /** `f"{idx}\n{time_line}\n{text}\n"`. */
  function Render(e: Entry): (r: string)
    ensures |r| > 0 && r[|r| - 1] == '\n'
  {
    Show(e.index) + "\n" + TimeLine(e.begin, e.end) + "\n" + e.text + "\n"
  }

  function RenderAll(es: seq<Entry>): (r: seq<string>)
    ensures |r| == |es|
  {
    if es == [] then [] else RenderAll(es[..|es| - 1]) + [Render(es[|es| - 1])]
  }

  /** `"\n".join(xs)`. */
  function Join(xs: seq<string>): (r: string)
    ensures xs != [] ==> xs[0] <= r
    ensures xs != [] ==> |r| >= |xs[|xs| - 1]| && r[|r| - |xs[|xs| - 1]|..] == xs[|xs| - 1]
  {
    if |xs| == 0 then ""
    else if |xs| == 1 then xs[0]
    else Join(xs[..|xs| - 1]) + "\n" + xs[|xs| - 1]
  }

  /** Each string followed by a newline, concatenated. */
  function Terminated(xs: seq<string>): string {
    if xs == [] then "" else Terminated(xs[..|xs| - 1]) + xs[|xs| - 1] + "\n"
  }

  /** The SRT text of a sentence list. */
  function Document(ss: seq<Sentence>): (r: string)
    ensures r == "" <==> Assemble(ss) == []
  {
    if Assemble(ss) != [] then DocumentNonEmpty(Assemble(ss)); Join(RenderAll(Assemble(ss)))
    else Join(RenderAll(Assemble(ss)))
  }

  /** How a response is read: exactly one of three outcomes. A non-200
      status is a service error carrying the backend's code and message;
      a 200 response with no sentences under either key is "no speech";
      otherwise the document. */
  function Interpret(res: Response): (r: Result<string, Error>)
    ensures r == Failure(ServiceError(res.code, res.message)) <==> res.statusCode != OkStatus
    ensures r == Failure(NoSpeechDetected) <==>
      res.statusCode == OkStatus && res.output.sentence.GetOr([]) == [] && res.output.sentences.GetOr([]) == []
    ensures r.Success? <==>
      res.statusCode == OkStatus && (res.output.sentence.GetOr([]) != [] || res.output.sentences.GetOr([]) != [])
  {
    SelectedSentences(res.output);
    if res.statusCode != OkStatus then Failure(ServiceError(res.code, res.message))
    else
      var ss := FirstNonEmpty(Lookups(res.output));
      if ss == [] then Failure(NoSpeechDetected) else Success(Document(ss))
  }

  /** The lines of `generate_srt` after `rec.call` that build the entries
      and join them. */
  method BuildSrt(sentences: seq<Sentence>) returns (srt: string)
    ensures srt == Document(sentences)
  {
    var srtContent: seq<string> := [];
    for i := 0 to |sentences|
      invariant srtContent == RenderAll(Assemble(sentences[..i]))
    {
      var sent := sentences[i];
      var begin, end, text := sent.beginTime, sent.endTime, sent.text;
      AssembleStep(sentences, i);
      if begin.Some? && end.Some? && text.Some? && text.value != [] {
        var idx := i + 1;
        var timeLine := TimeLine(begin.value, end.value);
        var block := Show(idx) + "\n" + timeLine + "\n" + text.value + "\n";
        assert block == Render(EntryFor(idx, sent));
        RenderAllAppend(Assemble(sentences[..i]), EntryFor(idx, sent));
        srtContent := srtContent + [block];
      } else {
        assert Assemble(sentences[..i + 1]) == Assemble(sentences[..i]);
      }
    }
    assert sentences[..|sentences|] == sentences;
    srt := Join(srtContent);
  }

  lemma AssembleStep(ss: seq<Sentence>, i: nat)
    requires i < |ss|
    ensures Assemble(ss[..i + 1]) ==
      Assemble(ss[..i]) + if HasEntry(ss[i]) then [EntryFor(i + 1, ss[i])] else []
  {
    assert ss[..i + 1][..i] == ss[..i];
  }

  /** Block `i` is the rendering of entry `i`. */
  lemma {:induction false} RenderAllAt(es: seq<Entry>)
    ensures forall i :: 0 <= i < |es| ==> RenderAll(es)[i] == Render(es[i])
  {
    if es != [] {
      var init := es[..|es| - 1];
      var last := es[|es| - 1];
      var rs := RenderAll(init);
      RenderAllAt(init);
      assert RenderAll(es) == rs + [Render(last)];
      forall i | 0 <= i < |es|
        ensures RenderAll(es)[i] == Render(es[i])
      {
        if i < |init| {
          assert init[i] == es[i];
          assert (rs + [Render(last)])[i] == rs[i];
        } else {
          assert i == |es| - 1;
          assert (rs + [Render(last)])[i] == Render(last);
        }
      }
    }
  }

  lemma RenderAllAppend(es: seq<Entry>, e: Entry)
    ensures RenderAll(es + [e]) == RenderAll(es) + [Render(e)]
  {
    assert (es + [e])[..|es|] == es;
  }

  // ---------------------------------------------------------------------
  // Properties of the response interpretation

  /** A successful reading is the document of the primary list when it is
      non-empty, else of the alternate list. */
  lemma InterpretSuccess(res: Response)
    requires res.statusCode == OkStatus
    requires res.output.sentence.GetOr([]) != [] || res.output.sentences.GetOr([]) != []
    ensures res.output.sentence.GetOr([]) != [] ==> Interpret(res) == Success(Document(res.output.sentence.value))
    ensures res.output.sentence.GetOr([]) == [] ==> Interpret(res) == Success(Document(res.output.sentences.value))
  {
    SelectedSentences(res.output);
  }

  // ---------------------------------------------------------------------
  // Properties of the assembled entries

  /** Every entry comes from a sentence that has one, at the position its index names. */
  lemma {:induction false} AssembleSound(ss: seq<Sentence>)
    ensures forall j :: 0 <= j < |Assemble(ss)| ==>
      var e := Assemble(ss)[j];
      1 <= e.index <= |ss| && HasEntry(ss[e.index - 1]) && e == EntryFor(e.index, ss[e.index - 1])
  {
    if ss != [] {
      var k := |ss| - 1;
      AssembleSound(ss[..k]);
      forall j | 0 <= j < |Assemble(ss[..k])|
        ensures Assemble(ss)[j] == Assemble(ss[..k])[j]
      {
      }
    }
  }

  /** Entries keep the input order: indices strictly increase. */
  lemma {:induction false} AssembleIncreasing(ss: seq<Sentence>)
    ensures forall i, j :: 0 <= i < j < |Assemble(ss)| ==> Assemble(ss)[i].index < Assemble(ss)[j].index
  {
    if ss != [] {
      var k := |ss| - 1;
      AssembleIncreasing(ss[..k]);
      AssembleSound(ss[..k]);
      var a := Assemble(ss[..k]);
      assert forall j :: 0 <= j < |a| ==> Assemble(ss)[j] == a[j];
    }
  }

  /** A sentence has an entry exactly when some entry carries its 1-based position. */
  lemma AssembleComplete(ss: seq<Sentence>)
    ensures forall k :: 0 <= k < |ss| ==>
      (HasEntry(ss[k]) <==> exists j :: 0 <= j < |Assemble(ss)| && Assemble(ss)[j].index == k + 1)
  {
    var es := Assemble(ss);
    AssembleSound(ss);
    forall k | 0 <= k < |ss|
      ensures HasEntry(ss[k]) <==> exists j :: 0 <= j < |es| && es[j].index == k + 1
    {
      if HasEntry(ss[k]) {
        AssembleHasIndex(ss, k);
      }
    }
  }

  /** A sentence with an entry contributes an entry carrying its position. */
  lemma {:induction false} AssembleHasIndex(ss: seq<Sentence>, k: nat)
    requires k < |ss| && HasEntry(ss[k])
    ensures exists j :: 0 <= j < |Assemble(ss)| && Assemble(ss)[j].index == k + 1
  {
    var n := |ss| - 1;
    var a := Assemble(ss[..n]);
    if k == n {
      assert Assemble(ss)[|a|] == EntryFor(k + 1, ss[k]);
    } else {
      assert ss[..n][k] == ss[k];
      AssembleHasIndex(ss[..n], k);
      var j :| 0 <= j < |a| && a[j].index == k + 1;
      assert Assemble(ss)[j] == a[j];
    }
  }

  /** With no sentence skipped there is one entry per sentence, indexed 1..N. */
  lemma {:induction false} AssembleAllValid(ss: seq<Sentence>)
    requires forall k :: 0 <= k < |ss| ==> HasEntry(ss[k])
    ensures |Assemble(ss)| == |ss|
    ensures forall j :: 0 <= j < |ss| ==> Assemble(ss)[j] == EntryFor(j + 1, ss[j])
  {
    if ss != [] {
      var n := |ss| - 1;
      AssembleAllValid(ss[..n]);
      assert forall j :: 0 <= j < n ==> Assemble(ss)[j] == Assemble(ss[..n])[j];
    }
  }

  /** With every sentence skipped there are no entries. */
  lemma {:induction false} AssembleNoneValid(ss: seq<Sentence>)
    requires forall k :: 0 <= k < |ss| ==> !HasEntry(ss[k])
    ensures Assemble(ss) == []
  {
    if ss != [] {
      AssembleNoneValid(ss[..|ss| - 1]);
    }
  }

  // ---------------------------------------------------------------------
  // Properties of the serialised document

  /** Joining with newlines is the newline-terminated concatenation less
      its final newline: entries are separated, not followed, by a newline. */
  lemma {:induction false} JoinThenNewline(xs: seq<string>)
    requires xs != []
    ensures Join(xs) + "\n" == Terminated(xs)
  {
    var init, last := xs[..|xs| - 1], xs[|xs| - 1];
    if |xs| > 1 {
      JoinThenNewline(init);
      assert Join(xs) == Join(init) + "\n" + last;
      assert Terminated(xs) == Terminated(init) + last + "\n";
    } else {
      assert init == [];
      assert Terminated(xs) == Terminated(init) + last + "\n";
    }
  }

  /** The document is empty exactly when no sentence has an entry. */
  lemma DocumentEmptyIff(ss: seq<Sentence>)
    ensures Document(ss) == "" <==> forall k :: 0 <= k < |ss| ==> !HasEntry(ss[k])
  {
    if forall k :: 0 <= k < |ss| ==> !HasEntry(ss[k]) {
      AssembleNoneValid(ss);
    } else {
      var k :| 0 <= k < |ss| && HasEntry(ss[k]);
      AssembleHasIndex(ss, k);
      DocumentNonEmpty(Assemble(ss));
    }
  }

  /** Blocks are never empty, so neither is the join of at least one. */
  lemma DocumentNonEmpty(es: seq<Entry>)
    requires es != []
    ensures Join(RenderAll(es)) != ""
  {
    var rs := RenderAll(es);
    assert rs[|rs| - 1] == Render(es[|es| - 1]);
  }

  // ---------------------------------------------------------------------
  // Worked examples

  /** Two well-formed sentences give two blocks separated by one blank line. */
  lemma TwoSentenceDocument()
    ensures Document([Sentence(Some(0), Some(1500), Some("hello")), Sentence(Some(1500), Some(3000), Some("world"))])
         == "1\n00:00:00,000 --> 00:00:01,500\nhello\n\n2\n00:00:01,500 --> 00:00:03,000\nworld\n"
  {
    var ss := [Sentence(Some(0), Some(1500), Some("hello")), Sentence(Some(1500), Some(3000), Some("world"))];
    DocumentOfTwoValid(ss[0], ss[1]);
    FirstBlock();
    SecondBlock();
    TwoBlocksText();
  }

  /** The document of two sentences that both have entries. */
  lemma DocumentOfTwoValid(s1: Sentence, s2: Sentence)
    requires HasEntry(s1) && HasEntry(s2)
    ensures Document([s1, s2]) == Render(EntryFor(1, s1)) + "\n" + Render(EntryFor(2, s2))
  {
    AssembleOfTwo(s1, s2);
    RenderAllOfTwo(EntryFor(1, s1), EntryFor(2, s2));
    JoinTwo(Render(EntryFor(1, s1)), Render(EntryFor(2, s2)));
  }

  lemma AssembleOfTwo(s1: Sentence, s2: Sentence)
    requires HasEntry(s1) && HasEntry(s2)
    ensures Assemble([s1, s2]) == [EntryFor(1, s1), EntryFor(2, s2)]
  {
    var ss := [s1, s2];
    assert ss[..0] == [] && ss[..2] == ss;
    AssembleStep(ss, 0);
    AssembleStep(ss, 1);
  }

  lemma RenderAllOfTwo(e1: Entry, e2: Entry)
    ensures RenderAll([e1, e2]) == [Render(e1), Render(e2)]
  {
    var es := [e1, e2];
    assert es[..1] == [e1] && [e1][..0] == [];
    assert RenderAll([e1]) == [Render(e1)];
    assert RenderAll(es) == RenderAll([e1]) + [Render(e2)];
    Pair(Render(e1), Render(e2));
  }

  lemma Pair<T>(x: T, y: T)
    ensures [x] + [y] == [x, y]
  {
  }

  lemma JoinTwo(a: string, b: string)
    ensures Join([a, b]) == a + "\n" + b
  {
    assert [a, b][..1] == [a];
  }

  lemma TwoBlocksText()
    ensures "1\n00:00:00,000 --> 00:00:01,500\nhello\n" + "\n" + "2\n00:00:01,500 --> 00:00:03,000\nworld\n"
         == "1\n00:00:00,000 --> 00:00:01,500\nhello\n\n2\n00:00:01,500 --> 00:00:03,000\nworld\n"
  {
  }

  lemma FirstBlock()
    ensures Render(Entry(1, 0, 1500, "hello")) == "1\n00:00:00,000 --> 00:00:01,500\nhello\n"
  {
    TimeCode.FormatZero();
    TimeCode.FormatOneAndAHalfSeconds();
    assert Show(1) == "1";
    var e := Entry(1, 0, 1500, "hello");
    assert Render(e) == Show(e.index) + "\n" + (TimeCode.Format(e.begin) + " --> " + TimeCode.Format(e.end)) + "\n" + e.text + "\n";
    FirstBlockText();
  }

  lemma SecondBlock()
    ensures Render(Entry(2, 1500, 3000, "world")) == "2\n00:00:01,500 --> 00:00:03,000\nworld\n"
  {
    TimeCode.FormatOneAndAHalfSeconds();
    TimeCode.FormatThreeSeconds();
    assert Show(2) == "2";
    var e := Entry(2, 1500, 3000, "world");
    assert Render(e) == Show(e.index) + "\n" + (TimeCode.Format(e.begin) + " --> " + TimeCode.Format(e.end)) + "\n" + e.text + "\n";
    SecondBlockText();
  }

  lemma FirstBlockText()
    ensures "1" + "\n" + ("00:00:00,000" + " --> " + "00:00:01,500") + "\n" + "hello" + "\n"
         == "1\n00:00:00,000 --> 00:00:01,500\nhello\n"
  {
  }

  lemma SecondBlockText()
    ensures "2" + "\n" + ("00:00:01,500" + " --> " + "00:00:03,000") + "\n" + "world" + "\n"
         == "2\n00:00:01,500 --> 00:00:03,000\nworld\n"
  {
  }

  /** A skipped sentence leaves a gap: the block after it keeps its
      position in the full list as its index. */
  lemma SkippedSentenceLeavesGap()
    ensures Assemble([Sentence(Some(0), Some(1000), None), Sentence(Some(1000), Some(2000), Some("hi"))])
         == [Entry(2, 1000, 2000, "hi")]
  {
    var ss := [Sentence(Some(0), Some(1000), None), Sentence(Some(1000), Some(2000), Some("hi"))];
    assert ss[..1][..0] == [];
    assert !HasEntry(ss[0]);
    assert Assemble(ss[..1]) == [];
  }

  /** An end before its begin is not a reason to skip a sentence. */
  lemma ReversedRangeKept()
    ensures Assemble([Sentence(Some(5000), Some(1000), Some("x"))]) == [Entry(1, 5000, 1000, "x")]
  {
    var ss := [Sentence(Some(5000), Some(1000), Some("x"))];
    assert ss[..0] == [];
  }

  /** An empty text counts as missing. */
  lemma EmptyTextSkipped()
    ensures Document([Sentence(Some(0), Some(1000), Some(""))]) == ""
  {
    var ss := [Sentence(Some(0), Some(1000), Some(""))];
    AssembleNoneValid(ss);
  }
}
