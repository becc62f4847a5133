/** One row of process_csv_to_patterns after column mapping: whether it is
    kept, and the defaults and normalisations that fill its optional
    columns. */
module Rules {
  import opened Options
  import Text
  import Numbers
  import opened Columns

  /** A processed row: the fields the rows are later sorted on and rendered
      from. The name is the raw pattern_name; it is cleaned only when
      rendered. */
  datatype Entry = Entry(name: string, pattern: string, description: string, color: string, priority: int)

  /** The default colours, in order. */
  const Palette: seq<string> := [
    "#87CEEB", "#FF6B6B", "#4ECDC4", "#45B7D1", "#96CEB4",
    "#FFEAA7", "#DDA0DD", "#B19CD9", "#FF9F43", "#F0A3A3"
  ]

  /** generate_default_color: a seven-character hex colour from the palette,
      chosen by index modulo its length. */
  function DefaultColor(index: nat): (r: string)
    ensures |r| == 7 && r[0] == '#'
    ensures r in Palette
  {
    Palette[index % |Palette|]
  }

  /** The palette repeats every ten rows. */
  lemma DefaultColorPeriodic(index: nat)
    ensures DefaultColor(index + |Palette|) == DefaultColor(index)
  {
    assert (index + 10) % 10 == index % 10;
  }

  /** Every tenth row, starting with the first, gets #87CEEB. */
  lemma {:induction false} DefaultColorEveryTenth(n: nat)
    ensures DefaultColor(10 * n) == "#87CEEB"
  {
    if n > 0 {
      DefaultColorEveryTenth(n - 1);
      DefaultColorPeriodic(10 * (n - 1));
      assert 10 * (n - 1) + 10 == 10 * n;
    }
  }

  /** Python truthiness of a cell value: present and not the empty string. */
  predicate Truthy(v: Option<string>) {
    v.Some? && |v.value| > 0
  }

  /** mapped_row.get(key) */
  function Get(fields: Fields, key: string): Option<string> {
    if key in fields then fields[key] else None
  }

  /** The priority column: 1 when missing or empty, otherwise int(float(..))
      of its text, and 1 again when that text does not parse. */
  function NormalizePriority(v: Option<string>): int {
    if !Truthy(v) then 1
    else
      var parsed := Numbers.ParseTruncated(v.value);
      if parsed.Some? then parsed.value else 1
  }

  /** A present priority whose value float() rounds to infinity: int()
      then raises OverflowError, which the handler around it does not
      catch. */
  predicate PriorityOverflows(v: Option<string>) {
    Truthy(v) && Numbers.Overflows(v.value)
  }

  /** The colour column: the palette colour of the row's index when missing or
      empty, otherwise the text with a '#' put in front unless it already
      starts with one. The result always starts with '#'. */
  function NormalizeColor(v: Option<string>, index: nat): (r: string)
    ensures |r| > 0 && r[0] == '#'
    ensures Truthy(v) ==> r == v.value || r == "#" + v.value
  {
    if !Truthy(v) then DefaultColor(index)
    else if v.value[0] == '#' then v.value
    else "#" + v.value
  }

  /** A colour that already starts with '#' is kept as it is; any other
      present colour differs from the result only by the added '#'. */
  lemma ColorRules(v: Option<string>, index: nat)
    ensures !Truthy(v) ==> NormalizeColor(v, index) == Palette[index % 10]
    ensures Truthy(v) ==> (NormalizeColor(v, index) == v.value <==> v.value[0] == '#')
    ensures Truthy(v) && v.value[0] != '#' ==> NormalizeColor(v, index)[1..] == v.value
  {
  }

  /** Both required columns are present with non-empty values (values are not
      trimmed, so whitespace counts as present). */
  predicate Keeps(mapped: Fields) {
    Truthy(Get(mapped, "pattern_name")) && Truthy(Get(mapped, "pattern"))
  }

  /** The defaults of regex_pattern_generator.py:327-343 for the row at position index among all
      data rows. The default description is the raw pattern_name. */
  function BuildEntry(mapped: Fields, index: nat): Entry
    requires Keeps(mapped)
  {
    var name := Get(mapped, "pattern_name").value;
    var description := Get(mapped, "description");
    Entry(
      name,
      Get(mapped, "pattern").value,
      if Truthy(description) then description.value else name,
      NormalizeColor(Get(mapped, "color"), index),
      NormalizePriority(Get(mapped, "priority")))
  }

  /** regex_pattern_generator.py:319-345 for one mapped row: the processed row, or None when the
      row is skipped. */
  function ProcessRow(mapped: Fields, index: nat): Option<Entry> {
    if Keeps(mapped) then Some(BuildEntry(mapped, index)) else None
  }

  /** A priority written as digits with a fractional part is truncated toward
      zero. */
  lemma PriorityTruncates(sign: string, whole: string, fraction: string)
    requires sign == "" || sign == "+" || sign == "-"
    requires Numbers.AllDigits(whole) && Numbers.AllDigits(fraction) && |whole| + |fraction| > 0
    ensures NormalizePriority(Some(sign + whole + "." + fraction))
            == Numbers.Signed(sign == "-", Numbers.DigitsValue(whole))
  {
    Numbers.ParseTruncatesFraction(sign, whole, fraction);
  }

  /** A priority written as an integer keeps its value. */
  lemma PriorityOfInteger(n: int)
    ensures NormalizePriority(Some(Numbers.IntToString(n))) == n
  {
    Numbers.ParseIntToString(n);
  }

  /** Text that is not a number gives the default priority 1. */
  lemma PriorityOfWord(v: string)
    requires |v| > 0 && !Numbers.IsNumberChar(v[0]) && !Text.IsSpace(v[0])
    ensures NormalizePriority(Some(v)) == 1
  {
    Numbers.ParseRejects(v);
  }

  /** "2.9" reads as 2. */
  lemma PriorityExamplePositive()
    ensures NormalizePriority(Some("2.9")) == 2
  {
    assert Numbers.DigitsValue("2") == 2 by {
      assert "2"[..0] == "";
    }
    assert "" + "2" + "." + "9" == "2.9";
    PriorityTruncates("", "2", "9");
  }

  /** "-2.9" reads as -2: truncation is toward zero, not down. */
  lemma PriorityExampleNegative()
    ensures NormalizePriority(Some("-2.9")) == -2
  {
    assert Numbers.DigitsValue("2") == 2 by {
      assert "2"[..0] == "";
    }
    assert "-" + "2" + "." + "9" == "-2.9";
    PriorityTruncates("-", "2", "9");
  }

  /** A missing, empty or non-numeric priority is 1. */
  lemma PriorityDefaults()
    ensures NormalizePriority(None) == 1
    ensures NormalizePriority(Some("")) == 1
    ensures NormalizePriority(Some("abc")) == 1
  {
    PriorityOfWord("abc");
  }

  /** A colour without '#' gets one, a colour with one is kept, and a
      missing colour at rows 0 and 10 is #87CEEB. */
  lemma ColorExamples()
    ensures NormalizeColor(Some("ff0000"), 0) == "#ff0000"
    ensures NormalizeColor(Some("#00ff00"), 0) == "#00ff00"
    ensures NormalizeColor(None, 0) == "#87CEEB" && NormalizeColor(Some(""), 10) == "#87CEEB"
  {
    DefaultColorEveryTenth(1);
  }

  /** A row with an empty description, colour and priority 1 at position 0
      is filled in with its name as description and the first palette
      colour. */
  lemma FilledRowExample(mapped: Fields)
    requires mapped == map["pattern_name" := Some("Home"), "pattern" := Some("^/$"),
                           "description" := Some(""), "color" := Some(""), "priority" := Some("1")]
    ensures ProcessRow(mapped, 0) == Some(Entry("Home", "^/$", "Home", "#87CEEB", 1))
  {
    assert Get(mapped, "pattern_name") == Some("Home") && Get(mapped, "pattern") == Some("^/$");
    assert Get(mapped, "description") == Some("") && Get(mapped, "color") == Some("");
    assert Get(mapped, "priority") == Some("1");
    assert Numbers.IntToString(1) == "1";
    PriorityOfInteger(1);
  }
}
