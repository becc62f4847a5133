/** The generated Python source: a fixed header, seven lines per processed
    row, a closing line, all joined with newlines. ReadCode is the reading
    of that text back into rules, the inverse the rendering is proved
    against. */
module Render {
  import opened Options
  import Text
  import Numbers
  import opened Rules

  const HeaderLines: seq<string> := [
    "# Global pattern library - edit and expand as needed",
    "# IMPORTANT: Patterns are processed in ORDER - put more specific patterns FIRST!",
    "",
    "REGEX_PATTERNS = OrderedDict(["
  ]

  const Footer: string := "])"

  /** The fixed text around a value on one line of a rule. */
  datatype Frame = Frame(prefix: string, suffix: string)

  function Wrap(f: Frame, inner: string): string {
    f.prefix + inner + f.suffix
  }

  const KeyFrame := Frame("    ('", "', {")
  const PatternFrame := Frame("        'pattern': r'", "',")
  const DescriptionFrame := Frame("        'description': '", "',")
  const ColorFrame := Frame("        'color': '", "',")
  const PriorityFrame := Frame("        'priority': ", "")
  const CloseLine := "    }),"

  /** The seven lines of one rule: its cleaned key, the pattern in a raw
      literal and the description in a plain literal, both with single
      quotes escaped, the colour, the priority and a blank line. */
  function EntryLines(e: Entry): (lines: seq<string>)
    ensures |lines| == 7
  {
    [
      Wrap(KeyFrame, Text.CleanPatternName(e.name)),
      Wrap(PatternFrame, Text.EscapeQuotes(e.pattern)),
      Wrap(DescriptionFrame, Text.EscapeQuotes(e.description)),
      Wrap(ColorFrame, e.color),
      Wrap(PriorityFrame, Numbers.IntToString(e.priority)),
      CloseLine,
      ""
    ]
  }

  function EntriesLines(es: seq<Entry>): (lines: seq<string>)
    ensures |lines| == 7 * |es|
  {
    if |es| == 0 then [] else EntriesLines(es[..|es| - 1]) + EntryLines(es[|es| - 1])
  }

  /** code_lines */
  function CodeLines(es: seq<Entry>): (lines: seq<string>)
    ensures |lines| == 5 + 7 * |es|
  {
    HeaderLines + EntriesLines(es) + [Footer]
  }

  /** "\n".join(lines) */
  function JoinLines(lines: seq<string>): string {
    if |lines| == 0 then ""
    else if |lines| == 1 then lines[0]
    else lines[0] + "\n" + JoinLines(lines[1..])
  }

  /** The generated code for processed rows in their final order. */
  function RenderCode(es: seq<Entry>): string {
    JoinLines(CodeLines(es))
  }

  /** str.split("\n"): the pieces between newlines, always at least one. */
  function SplitLines(s: string): (lines: seq<string>)
    ensures |lines| > 0
  {
    if |s| == 0 then [""]
    else
      var rest := SplitLines(s[1..]);
      if s[0] == '\n' then [""] + rest else [[s[0]] + rest[0]] + rest[1..]
  }

  /** A prefix without newlines joins the first piece of what follows. */
  lemma {:induction false} SplitLinesPrefix(w: string, t: string)
    requires '\n' !in w
    ensures SplitLines(w + t) == [w + SplitLines(t)[0]] + SplitLines(t)[1..]
  {
    if |w| > 0 {
      assert (w + t)[1..] == w[1..] + t;
      assert w[0] in w;
      assert forall c :: c in w[1..] ==> c in w;
      SplitLinesPrefix(w[1..], t);
      assert [w[0]] + (w[1..] + SplitLines(t)[0]) == w + SplitLines(t)[0];
    } else {
      var pieces := SplitLines(t);
      assert w + t == t;
      assert w + pieces[0] == pieces[0];
      assert pieces == [pieces[0]] + pieces[1..];
    }
  }

  predicate NoNewlines(lines: seq<string>) {
    forall k :: 0 <= k < |lines| ==> '\n' !in lines[k]
  }

  /** Splitting the joined lines gives them back when none holds a newline. */
  lemma {:induction false} SplitJoin(lines: seq<string>)
    requires |lines| > 0 && NoNewlines(lines)
    ensures SplitLines(JoinLines(lines)) == lines
  {
    if |lines| == 1 {
      SplitLinesPrefix(lines[0], "");
      assert lines[0] + "" == lines[0];
    } else {
      var rest := JoinLines(lines[1..]);
      SplitJoin(lines[1..]);
      assert ("\n" + rest)[1..] == rest;
      assert SplitLines("\n" + rest) == [""] + lines[1..];
      assert lines[0] + "\n" + rest == lines[0] + ("\n" + rest);
      SplitLinesPrefix(lines[0], "\n" + rest);
      assert lines[0] + "" == lines[0];
    }
  }

  /** A rule as it reads back from the generated code. */
  datatype RenderedRule = RenderedRule(key: string, pattern: string, description: string, color: string, priority: int)

  /** What the code shows of a processed row: its name cleaned, everything
      else as it was. */
  function Rendered(e: Entry): RenderedRule {
    RenderedRule(Text.CleanPatternName(e.name), e.pattern, e.description, e.color, e.priority)
  }

  /** The text of line between a frame's prefix and suffix. */
  function Unwrap(line: string, f: Frame): (r: Option<string>)
    ensures r.Some? ==> line == Wrap(f, r.value)
  {
    if |f.prefix| + |f.suffix| <= |line| && line[..|f.prefix|] == f.prefix
       && line[|line| - |f.suffix|..] == f.suffix then
      var inner := line[|f.prefix|..|line| - |f.suffix|];
      assert line == line[..|f.prefix|] + inner + line[|line| - |f.suffix|..];
      Some(inner)
    else None
  }

  lemma UnwrapWrap(f: Frame, inner: string)
    ensures Unwrap(Wrap(f, inner), f) == Some(inner)
  {
    var line := Wrap(f, inner);
    assert line[..|f.prefix|] == f.prefix;
    assert line[|line| - |f.suffix|..] == f.suffix;
    assert line[|f.prefix|..|line| - |f.suffix|] == inner;
  }

  /** Reads the seven lines of one rule; the escaping is undone. */
  function ReadEntry(lines: seq<string>): Option<RenderedRule>
    requires |lines| == 7
  {
    var key := Unwrap(lines[0], KeyFrame);
    var pattern := Unwrap(lines[1], PatternFrame);
    var description := Unwrap(lines[2], DescriptionFrame);
    var color := Unwrap(lines[3], ColorFrame);
    var priority := Unwrap(lines[4], PriorityFrame);
    if key.None? || pattern.None? || description.None? || color.None? || priority.None?
       || lines[5] != CloseLine || lines[6] != "" then None
    else
      var value := Numbers.ParseTruncated(priority.value);
      if value.None? then None
      else Some(RenderedRule(key.value, Text.DropBeforeQuotes(pattern.value),
                             Text.DropBeforeQuotes(description.value), color.value, value.value))
  }

  /** Reading back one rule's lines gives the row as rendered. */
  lemma EntryRoundTrip(e: Entry)
    ensures ReadEntry(EntryLines(e)) == Some(Rendered(e))
  {
    UnwrapWrap(KeyFrame, Text.CleanPatternName(e.name));
    UnwrapWrap(PatternFrame, Text.EscapeQuotes(e.pattern));
    UnwrapWrap(DescriptionFrame, Text.EscapeQuotes(e.description));
    UnwrapWrap(ColorFrame, e.color);
    UnwrapWrap(PriorityFrame, Numbers.IntToString(e.priority));
    Text.EscapeRoundTrip(e.pattern);
    Text.EscapeRoundTrip(e.description);
    Numbers.ParseIntToString(e.priority);
  }

  function ReadBlocks(lines: seq<string>): Option<seq<RenderedRule>> {
    if |lines| == 0 then Some([])
    else if |lines| < 7 then None
    else
      var init := ReadBlocks(lines[..|lines| - 7]);
      var last := ReadEntry(lines[|lines| - 7..]);
      if init.None? || last.None? then None else Some(init.value + [last.value])
  }

  /** Reads the rules between a known opening text and closing line; None
      for text that is not laid out as the generator writes it. */
  function ReadFramed(code: string, head: string, footer: string): Option<seq<RenderedRule>> {
    if |code| < |head| + |footer| || code[..|head|] != head || code[|code| - |footer|..] != footer then None
    else ReadMiddle(code[|head|..|code| - |footer|])
  }

  /** The text between the header and the closing line: nothing when there
      are no rules, otherwise rule lines each ended by a newline. */
  function ReadMiddle(middle: string): Option<seq<RenderedRule>> {
    if |middle| == 0 then Some([])
    else if middle[|middle| - 1] != '\n' then None
    else
      ReadBlocks(SplitLines(middle[..|middle| - 1]))
  }

  /** Reads generated code back into its rules, in order: the header and the
      closing line are matched as text, and the lines between them are read
      seven at a time. */
  function ReadCode(code: string): Option<seq<RenderedRule>> {
    ReadFramed(code, JoinLines(HeaderLines) + "\n", Footer)
  }

  function RenderedAll(es: seq<Entry>): (r: seq<RenderedRule>)
    ensures |r| == |es|
    ensures forall k :: 0 <= k < |es| ==> r[k] == Rendered(es[k])
  {
    if |es| == 0 then [] else RenderedAll(es[..|es| - 1]) + [Rendered(es[|es| - 1])]
  }

  lemma {:induction false} ReadBlocksEntries(es: seq<Entry>)
    ensures ReadBlocks(EntriesLines(es)) == Some(RenderedAll(es))
  {
    if |es| > 0 {
      var n := |es| - 1;
      var init, block := EntriesLines(es[..n]), EntryLines(es[n]);
      var lines := init + block;
      assert EntriesLines(es) == lines;
      assert lines[..|lines| - 7] == init;
      assert lines[|lines| - 7..] == block;
      ReadBlocksEntries(es[..n]);
      EntryRoundTrip(es[n]);
    }
  }

  /** The fields a rendered line can carry verbatim hold no line break. */
  predicate SingleLine(e: Entry) {
    '\n' !in e.pattern && '\n' !in e.description && '\n' !in e.color
  }

  /** Escaping adds only backslashes. */
  lemma {:induction false} EscapeAddsNoNewline(s: string)
    requires '\n' !in s
    ensures '\n' !in Text.EscapeQuotes(s)
  {
    if |s| > 0 {
      assert s[0] in s;
      assert forall c :: c in s[1..] ==> c in s;
      EscapeAddsNoNewline(s[1..]);
    }
  }

  predicate FrameSingle(f: Frame) {
    '\n' !in f.prefix && '\n' !in f.suffix
  }

  /** The fixed text of a rule holds no line break. */
  lemma KeyTextSingle()
    ensures FrameSingle(KeyFrame) && FrameSingle(PatternFrame) && '\n' !in CloseLine
  {
  }

  lemma FieldTextSingle()
    ensures FrameSingle(DescriptionFrame) && FrameSingle(ColorFrame) && FrameSingle(PriorityFrame)
  {
  }

  lemma WrapSingle(f: Frame, inner: string)
    requires FrameSingle(f) && '\n' !in inner
    ensures '\n' !in Wrap(f, inner)
  {
  }

  /** A cleaned key holds no line break. */
  lemma NameSingle(name: string)
    ensures '\n' !in Text.CleanPatternName(name)
  {
    var key := Text.CleanPatternName(name);
    assert forall c :: c in key ==> Text.IsWordChar(c) || c == ' ' || c == '-';
  }

  /** The text of a priority holds no line break. */
  lemma PrioritySingle(n: int)
    ensures '\n' !in Numbers.IntToString(n)
  {
    var text := Numbers.IntToString(n);
    assert forall k :: 0 <= k < |text| ==> text[k] == '-' || Numbers.IsDigit(text[k]);
  }

  /** The key line of a rule holds no line break. */
  lemma KeyLineSingle(e: Entry)
    ensures '\n' !in EntryLines(e)[0]
  {
    KeyTextSingle();
    NameSingle(e.name);
    WrapSingle(KeyFrame, Text.CleanPatternName(e.name));
  }

  /** The pattern line of a rule holds no line break. */
  lemma PatternLineSingle(e: Entry)
    requires '\n' !in e.pattern
    ensures '\n' !in EntryLines(e)[1]
  {
    KeyTextSingle();
    EscapeAddsNoNewline(e.pattern);
    WrapSingle(PatternFrame, Text.EscapeQuotes(e.pattern));
  }

  /** The description line of a rule holds no line break. */
  lemma DescriptionLineSingle(e: Entry)
    requires '\n' !in e.description
    ensures '\n' !in EntryLines(e)[2]
  {
    FieldTextSingle();
    EscapeAddsNoNewline(e.description);
    WrapSingle(DescriptionFrame, Text.EscapeQuotes(e.description));
  }

  /** The colour, priority, closing and blank lines hold no line break. */
  lemma ValueLinesSingle(e: Entry)
    requires SingleLine(e)
    ensures var lines := EntryLines(e); '\n' !in lines[3] && '\n' !in lines[4] && '\n' !in lines[5] && '\n' !in lines[6]
  {
    KeyTextSingle();
    FieldTextSingle();
    PrioritySingle(e.priority);
    WrapSingle(ColorFrame, e.color);
    WrapSingle(PriorityFrame, Numbers.IntToString(e.priority));
  }

  lemma EntryLinesSingle(e: Entry)
    requires SingleLine(e)
    ensures NoNewlines(EntryLines(e))
  {
    KeyLineSingle(e);
    PatternLineSingle(e);
    DescriptionLineSingle(e);
    ValueLinesSingle(e);
  }

  lemma {:induction false} EntriesLinesSingle(es: seq<Entry>)
    requires forall k :: 0 <= k < |es| ==> SingleLine(es[k])
    ensures NoNewlines(EntriesLines(es))
  {
    if |es| > 0 {
      EntriesLinesSingle(es[..|es| - 1]);
      EntryLinesSingle(es[|es| - 1]);
    }
  }

  /** Joining two non-empty lists of lines puts one newline between them. */
  lemma {:induction false} JoinAppend(a: seq<string>, b: seq<string>)
    requires |a| > 0 && |b| > 0
    ensures JoinLines(a + b) == JoinLines(a) + "\n" + JoinLines(b)
  {
    if |a| > 1 {
      assert (a + b)[1..] == a[1..] + b;
      JoinAppend(a[1..], b);
    } else {
      assert (a + b)[1..] == b;
    }
  }

  /** Joined lines around a block of lines, the layout of the generated code
      for any fixed header and closing line. */
  lemma JoinAround(header: seq<string>, body: seq<string>, footer: string)
    requires |header| > 0
    ensures |body| == 0 ==> JoinLines(header + body + [footer]) == JoinLines(header) + "\n" + footer
    ensures |body| > 0 ==>
      JoinLines(header + body + [footer]) == (JoinLines(header) + "\n") + (JoinLines(body) + "\n") + footer
  {
    if |body| == 0 {
      assert header + body + [footer] == header + [footer];
      JoinAppend(header, [footer]);
    } else {
      assert header + body + [footer] == header + (body + [footer]);
      JoinAppend(body, [footer]);
      JoinAppend(header, body + [footer]);
    }
  }

  /** ReadFramed finds the text between the opening text and the closing
      line. */
  lemma ReadFramedMiddle(head: string, middle: string, footer: string)
    ensures ReadFramed(head + middle + footer, head, footer) == ReadMiddle(middle)
  {
    var code := head + middle + footer;
    assert code[..|head|] == head;
    assert code[|code| - |footer|..] == footer;
    assert code[|head|..|code| - |footer|] == middle;
  }

  /** The rule lines between any opening text and closing line read back as
      the rendered rows. */
  lemma ReadMiddleRoundTrip(es: seq<Entry>)
    requires |es| > 0
    requires forall k :: 0 <= k < |es| ==> SingleLine(es[k])
    ensures ReadMiddle(JoinLines(EntriesLines(es)) + "\n") == Some(RenderedAll(es))
  {
    var body := EntriesLines(es);
    var middle := JoinLines(body) + "\n";
    assert middle[..|middle| - 1] == JoinLines(body);
    EntriesLinesSingle(es);
    SplitJoin(body);
    ReadBlocksEntries(es);
  }

  /** The text between the header and the closing line. */
  function Middle(es: seq<Entry>): string {
    if |es| == 0 then "" else JoinLines(EntriesLines(es)) + "\n"
  }

  lemma RenderCodeLayout(es: seq<Entry>)
    ensures RenderCode(es) == (JoinLines(HeaderLines) + "\n") + Middle(es) + Footer
  {
    JoinAround(HeaderLines, EntriesLines(es), Footer);
  }

  /** Reading the generated code gives back every processed row in order,
      with its name cleaned and all other fields unchanged, as long as no
      field holds a line break. */
  lemma CodeRoundTrip(es: seq<Entry>)
    requires forall k :: 0 <= k < |es| ==> SingleLine(es[k])
    ensures ReadCode(RenderCode(es)) == Some(RenderedAll(es))
  {
    RenderCodeLayout(es);
    if |es| > 0 {
      ReadMiddleRoundTrip(es);
    }
    ReadFramedMiddle(JoinLines(HeaderLines) + "\n", Middle(es), Footer);
  }
}
