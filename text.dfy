/** The string helpers of the generator: the upload-name guard
    (allowed_file), the dictionary-key cleaner (clean_pattern_name), the
    quote escaper (escape_regex_for_string), and the character classes,
    case mapping and whitespace trimming they rely on. */
module Text {

  /** Python's str.isspace(). The regular-expression class \s and
      str.strip() without arguments use the same set of characters. */
  predicate IsSpace(c: char) {
    || c == ' '
    || '\t' <= c <= '\r'
    || '\U{1C}' <= c <= '\U{1F}'
    || c == '\U{85}' || c == '\U{A0}' || c == '\U{1680}'
    || '\U{2000}' <= c <= '\U{200A}'
    || c == '\U{2028}' || c == '\U{2029}' || c == '\U{202F}'
    || c == '\U{205F}' || c == '\U{3000}'
  }

  /** The regular-expression class \w, restricted to ASCII. */
  predicate IsWordChar(c: char) {
    'a' <= c <= 'z' || 'A' <= c <= 'Z' || '0' <= c <= '9' || c == '_'
  }

  /** The characters that the class [^\w\s-] does not match: the ones the
      key cleaner keeps. */
  predicate IsNameChar(c: char) {
    IsWordChar(c) || IsSpace(c) || c == '-'
  }

  /** str.lower() on one character, for ASCII letters. */
  function LowerChar(c: char): char {
    if 'A' <= c <= 'Z' then (c as int + 32) as char else c
  }

  function Lower(s: string): string {
    if |s| == 0 then [] else [LowerChar(s[0])] + Lower(s[1..])
  }

  /** The number of whitespace characters at the start of s. */
  function LeadingSpaces(s: string): (n: nat)
    ensures n <= |s|
    ensures forall k :: 0 <= k < n ==> IsSpace(s[k])
    ensures n < |s| ==> !IsSpace(s[n])
  {
    if |s| > 0 && IsSpace(s[0]) then 1 + LeadingSpaces(s[1..]) else 0
  }

  /** The number of whitespace characters at the end of s. */
  function TrailingSpaces(s: string): (n: nat)
    ensures n <= |s|
    ensures forall k :: |s| - n <= k < |s| ==> IsSpace(s[k])
    ensures n < |s| ==> !IsSpace(s[|s| - 1 - n])
  {
    if |s| > 0 && IsSpace(s[|s| - 1]) then 1 + TrailingSpaces(s[..|s| - 1]) else 0
  }

  /** str.strip(): the infix of s left after removing whitespace at both
      ends. */
  function Strip(s: string): (r: string)
    ensures |r| == 0 || (!IsSpace(r[0]) && !IsSpace(r[|r| - 1]))
  {
    var i := LeadingSpaces(s);
    s[i..|s| - TrailingSpaces(s[i..])]
  }

  /** Strip removes whitespace only: its result is an infix of s with
      nothing but whitespace before and after it. */
  lemma StripSpec(s: string)
    ensures exists i, j :: 0 <= i <= j <= |s| && Strip(s) == s[i..j]
                        && (forall k :: 0 <= k < i ==> IsSpace(s[k]))
                        && (forall k :: j <= k < |s| ==> IsSpace(s[k]))
  {
    var i := LeadingSpaces(s);
    var n := TrailingSpaces(s[i..]);
    assert forall k :: |s| - n <= k < |s| ==> s[k] == s[i..][k - i];
    assert Strip(s) == s[i..|s| - n];
  }

  lemma StripUnchanged(s: string)
    requires |s| == 0 || (!IsSpace(s[0]) && !IsSpace(s[|s| - 1]))
    ensures Strip(s) == s
  {
    assert LeadingSpaces(s) == 0;
    assert TrailingSpaces(s) == 0;
  }

  /*** allowed_file ***/

  /** The position of the last occurrence of c in s. */
  function LastIndexOf(s: string, c: char): (k: nat)
    requires c in s
    ensures k < |s| && s[k] == c && c !in s[k + 1..]
  {
    if s[|s| - 1] == c then |s| - 1
    else
      var i :| 0 <= i < |s| && s[i] == c;
      assert s[..|s| - 1][i] == c;
      var k := LastIndexOf(s[..|s| - 1], c);
      assert s[k + 1..] == s[..|s| - 1][k + 1..] + [s[|s| - 1]];
      k
  }

  /** The upload guard: the name has a dot and the text after its last dot,
      lower-cased, is "csv". */
  function AllowedFile(filename: string): bool {
    '.' in filename && Lower(filename[LastIndexOf(filename, '.') + 1..]) == "csv"
  }

  /** Position k holds the last dot of the name. */
  predicate LastDot(filename: string, k: int) {
    0 <= k < |filename| && filename[k] == '.' && '.' !in filename[k + 1..]
  }

  /** A name is accepted exactly when the text after its last dot is csv in
      any letter case. */
  lemma AllowedFileSpec(filename: string)
    ensures AllowedFile(filename) <==>
      exists k :: LastDot(filename, k) && Lower(filename[k + 1..]) == "csv"
  {
    if k :| LastDot(filename, k) && Lower(filename[k + 1..]) == "csv" {
      AllowedFileAtDot(filename, k);
    }
    if '.' in filename {
      var k := LastIndexOf(filename, '.');
      AllowedFileAtDot(filename, k);
      if AllowedFile(filename) {
        assert LastDot(filename, k) && Lower(filename[k + 1..]) == "csv";
      }
    }
  }

  /** The extension after the last dot decides. */
  lemma AllowedFileAtDot(filename: string, k: int)
    requires LastDot(filename, k)
    ensures AllowedFile(filename) <==> Lower(filename[k + 1..]) == "csv"
  {
    LastDotUnique(filename, k);
  }

  lemma LastDotUnique(s: string, k: int)
    requires LastDot(s, k)
    ensures '.' in s && LastIndexOf(s, '.') == k
  {
    assert s[k] in s;
    var last := LastIndexOf(s, '.');
    forall j | k < j < |s| ensures s[j] != '.' {
      assert s[j] == s[k + 1..][j - k - 1];
    }
    forall j | last < j < |s| ensures s[j] != '.' {
      assert s[j] == s[last + 1..][j - last - 1];
    }
  }

  lemma AllowedFileAccepts()
    ensures AllowedFile(".csv")
    ensures AllowedFile("rules.CSV")
  {
    LastDotUnique(".csv", 0);
    assert ".csv"[1..] == "csv";
    LastDotUnique("rules.CSV", 5);
    assert "rules.CSV"[6..] == "CSV";
  }

  lemma AllowedFileRejects()
    ensures !AllowedFile("csv")
    ensures !AllowedFile("rules.csv.bak")
  {
    LastDotUnique("rules.csv.bak", 9);
    assert "rules.csv.bak"[10..] == "bak";
    assert Lower("bak")[0] == 'b';
  }

  /*** clean_pattern_name ***/

  /** First substitution: delete every character outside \w, \s and '-'. */
  function RemoveDisallowed(s: string): (r: string)
    ensures forall c :: c in r ==> IsNameChar(c)
  {
    if |s| == 0 then []
    else (if IsNameChar(s[0]) then [s[0]] else []) + RemoveDisallowed(s[1..])
  }

  /** Second substitution: replace every maximal run of whitespace by one
      space. */
  function CollapseSpaces(s: string): string
    decreases |s|
  {
    if |s| == 0 then []
    else if IsSpace(s[0]) then
      var rest := s[LeadingSpaces(s)..];
      " " + CollapseSpaces(rest)
    else [s[0]] + CollapseSpaces(s[1..])
  }

  /** After the second substitution every whitespace character is a single
      space, no two are adjacent, other characters come from the input, and
      the result starts with whitespace exactly when the input does. */
  lemma {:induction false} CollapseSpacesForm(s: string)
    ensures var r := CollapseSpaces(s);
      && (forall k :: 0 <= k < |r| && IsSpace(r[k]) ==> r[k] == ' ')
      && (forall k :: 0 <= k < |r| - 1 && IsSpace(r[k]) ==> !IsSpace(r[k + 1]))
      && (forall c :: c in r && !IsSpace(c) ==> c in s)
      && (|s| > 0 ==> |r| > 0 && (IsSpace(r[0]) <==> IsSpace(s[0])))
    decreases |s|
  {
    if |s| > 0 {
      var r := CollapseSpaces(s);
      if IsSpace(s[0]) {
        var rest := s[LeadingSpaces(s)..];
        CollapseSpacesForm(rest);
        var t := CollapseSpaces(rest);
        assert r == " " + t;
        forall k | 0 <= k < |r| && IsSpace(r[k]) ensures r[k] == ' ' {
          if k > 0 { assert r[k] == t[k - 1]; }
        }
        forall k | 0 <= k < |r| - 1 && IsSpace(r[k]) ensures !IsSpace(r[k + 1]) {
          assert r[k + 1] == t[k];
          if k > 0 { assert r[k] == t[k - 1]; }
        }
        forall c | c in r && !IsSpace(c) ensures c in s {
          var k :| 0 <= k < |r| && r[k] == c;
          assert r[k] == t[k - 1] && t[k - 1] in t;
          var j :| 0 <= j < |rest| && rest[j] == c;
          assert s[LeadingSpaces(s) + j] == c;
        }
      } else {
        var rest := s[1..];
        CollapseSpacesForm(rest);
        var t := CollapseSpaces(rest);
        assert r == [s[0]] + t;
        forall k | 0 <= k < |r| && IsSpace(r[k]) ensures r[k] == ' ' {
          assert r[k] == t[k - 1];
        }
        forall k | 0 <= k < |r| - 1 && IsSpace(r[k]) ensures !IsSpace(r[k + 1]) {
          assert r[k + 1] == t[k] && r[k] == t[k - 1];
        }
        forall c | c in r && !IsSpace(c) ensures c in s {
          var k :| 0 <= k < |r| && r[k] == c;
          if k > 0 {
            assert r[k] == t[k - 1] && t[k - 1] in t;
            var j :| 0 <= j < |rest| && rest[j] == c;
            assert s[j + 1] == c;
          }
        }
      }
    }
  }

  /** clean_pattern_name: the key under which a rule is rendered. It holds
      only word characters, spaces and hyphens, has no space at either end
      and never two spaces in a row. */
  function CleanPatternName(name: string): (r: string)
    ensures forall c :: c in r ==> IsWordChar(c) || c == ' ' || c == '-'
    ensures |r| > 0 ==> r[0] != ' ' && r[|r| - 1] != ' '
    ensures forall k :: 0 <= k < |r| - 1 ==> !(r[k] == ' ' && r[k + 1] == ' ')
  {
    var collapsed := CollapseSpaces(RemoveDisallowed(name));
    CollapsedForm(name);
    StripCollapsed(collapsed);
    Strip(collapsed)
  }

  /** What the first two substitutions leave is what StripCollapsed needs. */
  lemma CollapsedForm(name: string)
    ensures var s := CollapseSpaces(RemoveDisallowed(name));
      && (forall k :: 0 <= k < |s| && IsSpace(s[k]) ==> s[k] == ' ')
      && (forall k :: 0 <= k < |s| - 1 && IsSpace(s[k]) ==> !IsSpace(s[k + 1]))
      && (forall c :: c in s && !IsSpace(c) ==> IsWordChar(c) || c == '-')
  {
    CollapseSpacesForm(RemoveDisallowed(name));
  }

  /** Trimming text in which every whitespace character is a lone space
      leaves a clean name. */
  lemma StripCollapsed(s: string)
    requires forall k :: 0 <= k < |s| && IsSpace(s[k]) ==> s[k] == ' '
    requires forall k :: 0 <= k < |s| - 1 && IsSpace(s[k]) ==> !IsSpace(s[k + 1])
    requires forall c :: c in s && !IsSpace(c) ==> IsWordChar(c) || c == '-'
    ensures var r := Strip(s);
      && (forall c :: c in r ==> IsWordChar(c) || c == ' ' || c == '-')
      && (|r| > 0 ==> r[0] != ' ' && r[|r| - 1] != ' ')
      && (forall k :: 0 <= k < |r| - 1 ==> !(r[k] == ' ' && r[k + 1] == ' '))
  {
    var i := LeadingSpaces(s);
    var j := |s| - TrailingSpaces(s[i..]);
    var r := s[i..j];
    assert Strip(s) == r;
    forall c | c in r ensures IsWordChar(c) || c == ' ' || c == '-' {
      var k :| 0 <= k < |r| && r[k] == c;
      assert s[i + k] == c;
    }
    forall k | 0 <= k < |r| - 1 ensures !(r[k] == ' ' && r[k + 1] == ' ') {
      assert r[k] == s[i + k] && r[k + 1] == s[i + k + 1];
    }
  }

  lemma {:induction false} RemoveDisallowedUnchanged(s: string)
    requires forall k :: 0 <= k < |s| ==> IsNameChar(s[k])
    ensures RemoveDisallowed(s) == s
  {
    if |s| > 0 {
      RemoveDisallowedUnchanged(s[1..]);
      assert s == [s[0]] + s[1..];
    }
  }

  lemma {:induction false} CollapseSpacesUnchanged(s: string)
    requires forall k :: 0 <= k < |s| && IsSpace(s[k]) ==> s[k] == ' '
    requires forall k :: 0 <= k < |s| - 1 ==> !(s[k] == ' ' && s[k + 1] == ' ')
    ensures CollapseSpaces(s) == s
  {
    if |s| > 0 {
      CollapseSpacesUnchanged(s[1..]);
      if IsSpace(s[0]) {
        assert LeadingSpaces(s) == 1 + LeadingSpaces(s[1..]);
        assert LeadingSpaces(s[1..]) == 0;
      }
      assert s == [s[0]] + s[1..];
    }
  }

  /** Cleaning a cleaned name changes nothing. */
  lemma CleanPatternNameIdempotent(name: string)
    ensures CleanPatternName(CleanPatternName(name)) == CleanPatternName(name)
  {
    var s := CleanPatternName(name);
    forall k | 0 <= k < |s|
      ensures IsNameChar(s[k]) && (IsSpace(s[k]) ==> s[k] == ' ')
    {
      assert s[k] in s;
    }
    RemoveDisallowedUnchanged(s);
    CollapseSpacesUnchanged(s);
    StripUnchanged(s);
    assert CleanPatternName(s) == Strip(CollapseSpaces(RemoveDisallowed(s)));
  }

  /** The characters of s that are not whitespace, in order. */
  function Visible(s: string): string {
    if |s| == 0 then [] else (if IsSpace(s[0]) then [] else [s[0]]) + Visible(s[1..])
  }

  /** The word characters and hyphens of s, in order: what a key keeps of a
      name apart from its whitespace. */
  function KeyChars(s: string): string {
    if |s| == 0 then [] else (if IsWordChar(s[0]) || s[0] == '-' then [s[0]] else []) + KeyChars(s[1..])
  }

  lemma {:induction false} VisibleAppend(a: string, b: string)
    ensures Visible(a + b) == Visible(a) + Visible(b)
  {
    if |a| == 0 {
      assert a + b == b;
    } else {
      var h: string := if IsSpace(a[0]) then [] else [a[0]];
      var rest, tail := Visible(a[1..]), Visible(b);
      VisibleAppend(a[1..], b);
      assert (a + b)[0] == a[0] && (a + b)[1..] == a[1..] + b;
      assert Visible(a + b) == h + (rest + tail);
      assert Visible(a) == h + rest;
      assert h + (rest + tail) == (h + rest) + tail;
    }
  }

  lemma {:induction false} VisibleOfSpaces(s: string)
    requires forall k :: 0 <= k < |s| ==> IsSpace(s[k])
    ensures Visible(s) == []
  {
    if |s| > 0 {
      VisibleOfSpaces(s[1..]);
    }
  }

  /** The first substitution keeps every word character and hyphen of the
      input, in order, and drops no other non-whitespace character than
      those outside the class. */
  lemma {:induction false} RemoveDisallowedKeeps(s: string)
    ensures Visible(RemoveDisallowed(s)) == KeyChars(s)
  {
    if |s| > 0 {
      RemoveDisallowedKeeps(s[1..]);
      var head := if IsNameChar(s[0]) then [s[0]] else [];
      VisibleAppend(head, RemoveDisallowed(s[1..]));
      if IsNameChar(s[0]) && !IsSpace(s[0]) {
        assert Visible(head) == [s[0]];
      }
    }
  }

  /** The second substitution changes only whitespace: the other characters
      are all kept, in order. */
  lemma {:induction false} CollapseSpacesKeeps(s: string)
    ensures Visible(CollapseSpaces(s)) == Visible(s)
    decreases |s|
  {
    if |s| > 0 {
      if IsSpace(s[0]) {
        var n := LeadingSpaces(s);
        var rest := s[n..];
        CollapseSpacesKeeps(rest);
        VisibleAppend(" ", CollapseSpaces(rest));
        assert s == s[..n] + rest;
        VisibleAppend(s[..n], rest);
        VisibleOfSpaces(s[..n]);
        VisibleOfSpaces(" ");
      } else {
        CollapseSpacesKeeps(s[1..]);
        VisibleAppend([s[0]], CollapseSpaces(s[1..]));
      }
    }
  }

  /** Whitespace around a text adds nothing visible. */
  lemma VisibleTrim(front: string, middle: string, back: string)
    requires forall k :: 0 <= k < |front| ==> IsSpace(front[k])
    requires forall k :: 0 <= k < |back| ==> IsSpace(back[k])
    ensures Visible(front + middle + back) == Visible(middle)
  {
    VisibleOfSpaces(front);
    VisibleOfSpaces(back);
    VisibleAppend(front + middle, back);
    VisibleAppend(front, middle);
    assert Visible(front) + Visible(middle) + Visible(back) == Visible(middle);
  }

  lemma SliceThree(s: string, i: int, j: int)
    requires 0 <= i <= j <= |s|
    ensures s == s[..i] + s[i..j] + s[j..]
  {
  }

  /** strip() changes only whitespace. */
  lemma StripKeeps(s: string)
    ensures Visible(Strip(s)) == Visible(s)
  {
    StripSpec(s);
    var i, j :| 0 <= i <= j <= |s| && Strip(s) == s[i..j]
             && (forall k :: 0 <= k < i ==> IsSpace(s[k]))
             && (forall k :: j <= k < |s| ==> IsSpace(s[k]));
    SliceThree(s, i, j);
    var back := s[j..];
    forall k | 0 <= k < |back| ensures IsSpace(back[k]) {
      assert back[k] == s[j + k];
    }
    VisibleTrim(s[..i], s[i..j], back);
  }

  /** A cleaned key keeps exactly the word characters and hyphens of the
      name, in order; only whitespace is rearranged. */
  lemma CleanPatternNameKeeps(name: string)
    ensures Visible(CleanPatternName(name)) == KeyChars(name)
  {
    var removed := RemoveDisallowed(name);
    RemoveDisallowedKeeps(name);
    CollapseSpacesKeeps(removed);
    StripKeeps(CollapseSpaces(removed));
  }

  lemma {:induction false} RemoveDisallowedAppend(a: string, b: string)
    ensures RemoveDisallowed(a + b) == RemoveDisallowed(a) + RemoveDisallowed(b)
  {
    if |a| == 0 {
      assert a + b == b;
    } else {
      RemoveDisallowedAppend(a[1..], b);
      assert (a + b)[1..] == a[1..] + b;
    }
  }

  lemma {:induction false} LeadingSpacesRun(w: string, t: string)
    requires forall k :: 0 <= k < |w| ==> IsSpace(w[k])
    requires |t| == 0 || !IsSpace(t[0])
    ensures LeadingSpaces(w + t) == |w|
  {
    if |w| > 0 {
      assert (w + t)[1..] == w[1..] + t;
      LeadingSpacesRun(w[1..], t);
    } else {
      assert w + t == t;
    }
  }

  /** A run of whitespace becomes one space. */
  lemma CollapseRun(w: string, t: string)
    requires |w| > 0 && forall k :: 0 <= k < |w| ==> IsSpace(w[k])
    requires |t| == 0 || !IsSpace(t[0])
    ensures CollapseSpaces(w + t) == " " + CollapseSpaces(t)
  {
    LeadingSpacesRun(w, t);
    assert (w + t)[|w|..] == t;
  }

  /** Other characters are kept. */
  lemma CollapseWord(c: char, t: string)
    requires !IsSpace(c)
    ensures CollapseSpaces([c] + t) == [c] + CollapseSpaces(t)
  {
    assert ([c] + t)[1..] == t;
  }

  lemma CollapseWordStep(c: char, rest: string, t: string)
    requires !IsSpace(c) && CollapseSpaces(rest + t) == rest + CollapseSpaces(t)
    ensures CollapseSpaces([c] + rest + t) == [c] + rest + CollapseSpaces(t)
  {
    assert [c] + rest + t == [c] + (rest + t);
    CollapseWord(c, rest + t);
  }

  /** A run of characters other than whitespace is kept as it is. */
  lemma {:induction false} CollapseWordRun(w: string, t: string)
    requires forall k :: 0 <= k < |w| ==> !IsSpace(w[k])
    ensures CollapseSpaces(w + t) == w + CollapseSpaces(t)
  {
    if |w| == 0 {
      assert w + t == t;
    } else {
      var rest := w[1..];
      assert forall k :: 0 <= k < |rest| ==> rest[k] == w[k + 1];
      CollapseWordRun(rest, t);
      CollapseWordStep(w[0], rest, t);
      assert w == [w[0]] + rest;
    }
  }

  lemma {:induction false} TrailingSpacesOne(x: string)
    requires |x| > 0 && !IsSpace(x[|x| - 1])
    ensures TrailingSpaces(x + " ") == 1
  {
    assert (x + " ")[..|x|] == x;
  }

  /** One space on each side of text with non-space ends is trimmed. */
  lemma StripPadded(x: string)
    requires |x| > 0 && !IsSpace(x[0]) && !IsSpace(x[|x| - 1])
    ensures Strip(" " + x + " ") == x
  {
    var s := " " + x + " ";
    assert s == " " + (x + " ");
    LeadingSpacesRun(" ", x + " ");
    assert s[1..] == x + " ";
    TrailingSpacesOne(x);
    assert s[1..|s| - 1] == x;
  }

  predicate IsWord(w: string) {
    |w| > 0 && forall k :: 0 <= k < |w| ==> IsWordChar(w[k])
  }

  lemma WordUnchanged(w: string)
    requires IsWord(w)
    ensures RemoveDisallowed(w) == w
    ensures forall k :: 0 <= k < |w| ==> !IsSpace(w[k])
  {
    RemoveDisallowedUnchanged(w);
  }

  lemma ExampleRemoved(first: string, second: string)
    requires IsWord(first) && IsWord(second)
    ensures RemoveDisallowed("  " + (first + ("  " + (second + "! "))))
         == "  " + (first + ("  " + (second + " ")))
  {
    var tail := second + "! ";
    RemoveDisallowedAppend(second, "! ");
    WordUnchanged(second);
    assert RemoveDisallowed("! ") == " " by {
      assert "! "[1..] == " ";
      RemoveDisallowedUnchanged(" ");
    }
    RemoveDisallowedUnchanged("  ");
    RemoveDisallowedAppend("  ", tail);
    WordUnchanged(first);
    RemoveDisallowedAppend(first, "  " + tail);
    RemoveDisallowedAppend("  ", first + ("  " + tail));
  }

  lemma ExampleCollapsed(first: string, second: string)
    requires IsWord(first) && IsWord(second)
    ensures CollapseSpaces("  " + (first + ("  " + (second + " "))))
         == " " + (first + (" " + (second + " ")))
  {
    WordUnchanged(first);
    WordUnchanged(second);
    var t0 := second + " ";
    assert CollapseSpaces(" ") == " " by {
      CollapseRun(" ", "");
      assert " " + "" == " ";
    }
    CollapseWordRun(second, " ");
    var t1 := "  " + t0;
    CollapseRun("  ", t0);
    var t2 := first + t1;
    CollapseWordRun(first, t1);
    CollapseRun("  ", t2);
  }

  /** Two words padded with doubled spaces and followed by a stray "!" clean
      to the two words joined by one space, as "  Home  Page! " cleans to
      "Home Page". */
  lemma CleanPatternNameExample(first: string, second: string)
    requires IsWord(first) && IsWord(second)
    ensures CleanPatternName("  " + (first + ("  " + (second + "! ")))) == first + (" " + second)
  {
    ExampleRemoved(first, second);
    ExampleCollapsed(first, second);
    var x := first + (" " + second);
    assert " " + (first + (" " + (second + " "))) == " " + x + " ";
    StripPadded(x);
  }

  /** A removed character leaves nothing behind and a kept one stays where
      it was; with RemoveDisallowed("") == "" this fixes the first
      substitution on every input. */
  lemma RemoveDisallowedOne(a: string, c: char, b: string)
    ensures RemoveDisallowed(a + [c] + b)
         == RemoveDisallowed(a) + (if IsNameChar(c) then [c] else []) + RemoveDisallowed(b)
  {
    RemoveDisallowedAppend(a + [c], b);
    RemoveDisallowedAppend(a, [c]);
    assert [c][1..] == [];
  }

  lemma {:induction false} RemoveDisallowedNoSpaces(s: string)
    requires forall k :: 0 <= k < |s| ==> !IsSpace(s[k])
    ensures RemoveDisallowed(s) == KeyChars(s)
  {
    if |s| > 0 {
      RemoveDisallowedNoSpaces(s[1..]);
    }
  }

  lemma {:induction false} KeyCharsNoSpaces(s: string)
    ensures forall k :: 0 <= k < |KeyChars(s)| ==> !IsSpace(KeyChars(s)[k])
  {
    if |s| > 0 {
      KeyCharsNoSpaces(s[1..]);
      var head: string := if IsWordChar(s[0]) || s[0] == '-' then [s[0]] else [];
      var rest := KeyChars(s[1..]);
      assert KeyChars(s) == head + rest;
      forall k | 0 <= k < |KeyChars(s)| ensures !IsSpace(KeyChars(s)[k]) {
        if k >= |head| {
          assert KeyChars(s)[k] == rest[k - |head|];
        }
      }
    }
  }

  /** A name without whitespace cleans to its word characters and hyphens. */
  lemma CleanPatternNameNoSpaces(name: string)
    requires forall k :: 0 <= k < |name| ==> !IsSpace(name[k])
    ensures CleanPatternName(name) == KeyChars(name)
  {
    var x := KeyChars(name);
    RemoveDisallowedNoSpaces(name);
    KeyCharsNoSpaces(name);
    CollapseWordRun(x, []);
    assert x + [] == x;
    StripUnchanged(x);
  }

  /** The number of characters other than whitespace at the start of s. */
  function WordLength(s: string): (n: nat)
    ensures n <= |s|
    ensures forall k :: 0 <= k < n ==> !IsSpace(s[k])
    ensures n < |s| ==> IsSpace(s[n])
  {
    if |s| > 0 && !IsSpace(s[0]) then 1 + WordLength(s[1..]) else 0
  }

  /** str.split() without arguments: the maximal runs of characters other
      than whitespace, in order. */
  function Words(s: string): seq<string>
    decreases |s|
  {
    var t := s[LeadingSpaces(s)..];
    if |t| == 0 then []
    else
      assert t[0] == s[LeadingSpaces(s)];
      var n := WordLength(t);
      [t[..n]] + Words(t[n..])
  }

  /** " ".join(words) */
  function JoinWords(ws: seq<string>): string {
    if |ws| == 0 then []
    else if |ws| == 1 then ws[0]
    else ws[0] + (" " + JoinWords(ws[1..]))
  }

  /** A space in front is trimmed away. */
  lemma StripSpaceFront(x: string)
    ensures Strip(" " + x) == Strip(x)
  {
    var y := " " + x;
    assert y[1..] == x;
    var i := LeadingSpaces(x);
    assert LeadingSpaces(y) == 1 + i;
    assert y[1 + i..] == x[i..];
    var n := TrailingSpaces(x[i..]);
    assert y[1 + i..|y| - n] == x[i..|x| - n];
  }

  /** One space after text with non-space ends is trimmed away. */
  lemma StripSpaceBack(x: string)
    requires |x| > 0 && !IsSpace(x[0]) && !IsSpace(x[|x| - 1])
    ensures Strip(x + " ") == x
  {
    var y := x + " ";
    assert y[0] == x[0];
    assert LeadingSpaces(y) == 0;
    assert y[0..] == y;
    TrailingSpacesOne(x);
    assert y[..|y| - 1] == x;
  }

  lemma {:induction false} TrailingSpacesAppend(y: string, x: string)
    requires TrailingSpaces(x) < |x|
    ensures TrailingSpaces(y + x) == TrailingSpaces(x)
    decreases |x|
  {
    var z := y + x;
    assert z[|z| - 1] == x[|x| - 1];
    if IsSpace(x[|x| - 1]) {
      var x' := x[..|x| - 1];
      assert z[..|z| - 1] == y + x';
      TrailingSpacesAppend(y, x');
    }
  }

  /** Trimming a word, a space and text that starts with a character other
      than whitespace trims only the text's end. */
  lemma StripJoin(w: string, x: string)
    requires |w| > 0 && !IsSpace(w[0])
    requires |x| > 0 && !IsSpace(x[0])
    ensures Strip(w + (" " + x)) == w + (" " + Strip(x))
  {
    var front := w + " ";
    var y := front + x;
    assert y[0] == w[0];
    assert LeadingSpaces(y) == 0 && LeadingSpaces(x) == 0;
    assert y[0..] == y && x[0..] == x;
    var n := TrailingSpaces(x);
    var first := x[0];
    assert n == |x| ==> IsSpace(first);
    TrailingSpacesAppend(front, x);
    assert y[..|y| - n] == front + x[..|x| - n];
    assert y == w + (" " + x);
    assert front + x[..|x| - n] == w + (" " + x[..|x| - n]);
  }

  /** A run of whitespace collapses to one space. */
  lemma CollapseAllSpaces(r: string)
    requires |r| > 0 && LeadingSpaces(r) == |r|
    ensures CollapseSpaces(r) == " "
  {
    assert IsSpace(r[0]);
    assert r[|r|..] == [];
  }

  /** Leading whitespace changes neither the words nor the squeezed text. */
  lemma WordsSkip(s: string)
    ensures Words(s) == Words(s[LeadingSpaces(s)..])
  {
    var t := s[LeadingSpaces(s)..];
    if |t| > 0 {
      assert t[0] == s[LeadingSpaces(s)];
      assert LeadingSpaces(t) == 0 && t[0..] == t;
    }
  }

  lemma SqueezeSkip(s: string)
    ensures Strip(CollapseSpaces(s)) == Strip(CollapseSpaces(s[LeadingSpaces(s)..]))
  {
    if LeadingSpaces(s) > 0 {
      assert IsSpace(s[0]);
      StripSpaceFront(CollapseSpaces(s[LeadingSpaces(s)..]));
    } else {
      assert s[0..] == s;
    }
  }

  /** What follows the first word of t and the whitespace after it. */
  function AfterWord(t: string): (r: string)
    ensures |r| <= |t| - WordLength(t)
    ensures |r| > 0 ==> !IsSpace(r[0])
  {
    var r := t[WordLength(t)..];
    assert LeadingSpaces(r) < |r| ==> r[LeadingSpaces(r)..][0] == r[LeadingSpaces(r)];
    r[LeadingSpaces(r)..]
  }

  /** A word followed by whitespace only squeezes to the word. */
  lemma SqueezeWordSpaces(w: string, r: string)
    requires |w| > 0 && forall k :: 0 <= k < |w| ==> !IsSpace(w[k])
    requires LeadingSpaces(r) == |r|
    ensures Strip(CollapseSpaces(w + r)) == w
  {
    CollapseWordRun(w, r);
    if |r| == 0 {
      assert w + CollapseSpaces(r) == w;
      StripUnchanged(w);
    } else {
      CollapseAllSpaces(r);
      StripSpaceBack(w);
    }
  }

  /** A word, whitespace, and more text starting with a word squeeze to the
      word, one space and the squeezed text. */
  lemma SqueezeWordSpacesWord(w: string, r: string)
    requires |w| > 0 && forall k :: 0 <= k < |w| ==> !IsSpace(w[k])
    requires |r| > 0 && IsSpace(r[0]) && LeadingSpaces(r) < |r|
    ensures Strip(CollapseSpaces(w + r))
         == w + (" " + Strip(CollapseSpaces(r[LeadingSpaces(r)..])))
  {
    var r' := r[LeadingSpaces(r)..];
    assert r'[0] == r[LeadingSpaces(r)];
    CollapseWordRun(w, r);
    var x := CollapseSpaces(r');
    assert CollapseSpaces(r) == " " + x;
    CollapseWord(r'[0], r'[1..]);
    assert r' == [r'[0]] + r'[1..];
    StripJoin(w, x);
  }

  lemma SqueezeLast(t: string)
    requires |t| > 0 && !IsSpace(t[0]) && |AfterWord(t)| == 0
    ensures Strip(CollapseSpaces(t)) == t[..WordLength(t)]
  {
    var n := WordLength(t);
    assert t == t[..n] + t[n..];
    SqueezeWordSpaces(t[..n], t[n..]);
  }

  lemma SqueezeMore(t: string)
    requires |t| > 0 && !IsSpace(t[0]) && |AfterWord(t)| > 0
    ensures Strip(CollapseSpaces(t))
         == t[..WordLength(t)] + (" " + Strip(CollapseSpaces(AfterWord(t))))
  {
    var n := WordLength(t);
    assert t == t[..n] + t[n..];
    assert t[n..][0] == t[n];
    SqueezeWordSpacesWord(t[..n], t[n..]);
  }

  /** The words of t: its first word, then the words after it. */
  lemma WordsStep(t: string)
    requires |t| > 0 && !IsSpace(t[0])
    ensures Words(t) == [t[..WordLength(t)]] + Words(AfterWord(t))
  {
    WordsCons(t);
    WordsSkip(t[WordLength(t)..]);
  }

  lemma JoinWordsCons(w: string, ws: seq<string>)
    requires |ws| > 0
    ensures JoinWords([w] + ws) == w + (" " + JoinWords(ws))
  {
    assert ([w] + ws)[1..] == ws;
  }

  lemma WordsCons(t: string)
    requires |t| > 0 && !IsSpace(t[0])
    ensures Words(t) == [t[..WordLength(t)]] + Words(t[WordLength(t)..])
  {
    assert LeadingSpaces(t) == 0 && t[0..] == t;
  }

  /** One word of t, given the claim for the text after it. */
  lemma SqueezeStep(t: string)
    requires |t| > 0 && !IsSpace(t[0])
    requires Strip(CollapseSpaces(AfterWord(t))) == JoinWords(Words(AfterWord(t)))
    ensures Strip(CollapseSpaces(t)) == JoinWords(Words(t))
  {
    WordsStep(t);
    var rest := AfterWord(t);
    if |rest| == 0 {
      SqueezeLast(t);
    } else {
      SqueezeMore(t);
      WordsCons(rest);
      JoinWordsCons(t[..WordLength(t)], Words(rest));
    }
  }

  /** Collapsing whitespace and trimming is " ".join(s.split()). */
  lemma {:induction false} SqueezeWords(s: string)
    ensures Strip(CollapseSpaces(s)) == JoinWords(Words(s))
    decreases |s|
  {
    var t := s[LeadingSpaces(s)..];
    SqueezeSkip(s);
    WordsSkip(s);
    if |t| > 0 {
      assert t[0] == s[LeadingSpaces(s)];
      SqueezeWords(AfterWord(t));
      SqueezeStep(t);
    }
  }

  /** The key cleaner is " ".join(s.split()) of the text left by the first
      substitution: words of word characters and hyphens, in order, joined
      by single spaces. */
  lemma CleanPatternNameWords(name: string)
    ensures CleanPatternName(name) == JoinWords(Words(RemoveDisallowed(name)))
  {
    SqueezeWords(RemoveDisallowed(name));
  }

  /*** escape_regex_for_string ***/

  /** str.replace("'", "\\'"): every single quote gets a backslash in front
      of it. */
  function EscapeQuotes(s: string): (r: string)
    ensures forall k :: 0 <= k < |r| && r[k] == '\'' ==> 0 < k && r[k - 1] == '\\'
  {
    if |s| == 0 then []
    else
      (if s[0] == '\'' then "\\'" else [s[0]]) + EscapeQuotes(s[1..])
  }

  /** The escaped text is longer by the number of quotes. */
  lemma {:induction false} EscapeLength(s: string)
    ensures |EscapeQuotes(s)| == |s| + multiset(s)['\'']
  {
    if |s| > 0 {
      EscapeLength(s[1..]);
      assert s == [s[0]] + s[1..];
      assert multiset(s) == multiset{s[0]} + multiset(s[1..]);
    }
  }

  /** The inverse reading: delete the character just before each quote. */
  function DropBeforeQuotes(t: string): string {
    if |t| == 0 then []
    else if 1 < |t| && t[1] == '\'' then DropBeforeQuotes(t[1..])
    else [t[0]] + DropBeforeQuotes(t[1..])
  }

  /** A character not followed by a quote is kept. */
  lemma DropKeeps(c: char, rest: string)
    requires |rest| == 0 || rest[0] != '\''
    ensures DropBeforeQuotes([c] + rest) == [c] + DropBeforeQuotes(rest)
  {
    assert ([c] + rest)[1..] == rest;
  }

  /** A character followed by a quote is dropped. */
  lemma DropsBefore(c: char, u: string)
    requires |u| > 0 && u[0] == '\''
    ensures DropBeforeQuotes([c] + u) == DropBeforeQuotes(u)
  {
    assert ([c] + u)[1..] == u;
  }

  /** Dropping the character before each quote of the escaped text gives the
      original back. */
  lemma {:induction false} EscapeRoundTrip(s: string)
    ensures DropBeforeQuotes(EscapeQuotes(s)) == s
  {
    if |s| > 0 {
      var tail := s[1..];
      EscapeRoundTrip(tail);
      var rest := EscapeQuotes(tail);
      assert |rest| == 0 || rest[0] != '\'';
      DropKeeps(s[0], rest);
      if s[0] == '\'' {
        DropsBefore('\\', [s[0]] + rest);
        assert EscapeQuotes(s) == ['\\'] + ([s[0]] + rest);
      } else {
        assert EscapeQuotes(s) == [s[0]] + rest;
      }
      assert s == [s[0]] + tail;
    }
  }

  /** Text without quotes is not changed by escaping. */
  lemma {:induction false} EscapeWithoutQuotes(s: string)
    requires '\'' !in s
    ensures EscapeQuotes(s) == s
  {
    if |s| > 0 {
      var rest := s[1..];
      assert s[0] != '\'' by {
        assert s[0] in s;
      }
      assert '\'' !in rest by {
        assert forall k :: 0 <= k < |rest| ==> rest[k] == s[k + 1];
      }
      EscapeWithoutQuotes(rest);
      assert EscapeQuotes(s) == [s[0]] + EscapeQuotes(rest);
      assert s == [s[0]] + rest;
    }
  }
}
