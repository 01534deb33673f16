/**
 * The HEX memory image: one pixel per line, two upper-case hex digits,
 * row-major. The decoder reads the file text as Python's text mode does
 * (universal newlines, one line per '\n'), trims every line, drops blank
 * ones, insists on exactly rows * cols remaining lines, parses each as a
 * base-16 integer, collects every bad line and only then builds the grid.
 * The encoder writes each sample as "%02X" followed by a newline.
 */
module HexCodec {
  import opened PixelGrid

  datatype Option<T> = None | Some(value: T)

  datatype Result<T, E> = Ok(value: T) | Err(error: E)

  /** Why a line was rejected. */
  datatype Reason = OutOfRange | InvalidHex

  /** A rejected line: its 1-based position among the non-blank lines, its trimmed text and why. */
  datatype BadLine = BadLine(index: nat, text: string, reason: Reason)

  datatype LoadError =
    | CountMismatch(expected: int, got: nat)
    | InvalidLines(total: nat, preview: seq<BadLine>)

  /** How many bad lines the error message shows. */
  const PreviewLength: nat := 5

  // ---------------------------------------------------------------------
  // From file text to trimmed, non-blank lines
  // ---------------------------------------------------------------------

  /** Text-mode newline translation: "\r\n" and a lone '\r' both read as '\n'. */
  function UniversalNewlines(t: string): (u: string)
    ensures '\r' !in u
    ensures |u| <= |t|
  {
    if t == [] then []
    else if t[0] == '\r' then ['\n'] + UniversalNewlines(if |t| > 1 && t[1] == '\n' then t[2..] else t[1..])
    else [t[0]] + UniversalNewlines(t[1..])
  }

  /** A "\r\n" pair is one line break, not two. */
  lemma CrLfIsOneBreak()
    ensures UniversalNewlines("\r\n") == "\n"
  {
    assert "\r\n"[2..] == [];
  }

  lemma {:induction false} UniversalNewlinesNoCr(t: string)
    requires '\r' !in t
    ensures UniversalNewlines(t) == t
  {
    if t != [] {
      UniversalNewlinesNoCr(t[1..]);
    }
  }

  /** Length of the first line of t, its '\n' included when there is one. */
  function LineLength(t: string): (n: nat)
    requires t != []
    ensures 1 <= n <= |t|
    ensures '\n' !in t[..n - 1]
    ensures n < |t| ==> t[n - 1] == '\n'
  {
    if t[0] == '\n' || |t| == 1 then 1 else 1 + LineLength(t[1..])
  }

  /** The lines a file iteration yields: each keeps its '\n', the last may lack one. */
  function FileLines(t: string): (ls: seq<string>)
    ensures |ls| <= |t| && (ls == [] <==> t == [])
    decreases |t|
  {
    if t == [] then [] else [t[..LineLength(t)]] + FileLines(t[LineLength(t)..])
  }

  /** Joining the lines gives back the text. */
  lemma {:induction false} FileLinesJoin(t: string)
    ensures Join(FileLines(t)) == t
    ensures forall k :: 0 <= k < |FileLines(t)| ==> FileLines(t)[k] != []
    decreases |t|
  {
    FileLinesNonEmpty(t);
    if t != [] {
      var n := LineLength(t);
      var rest := t[n..];
      FileLinesJoin(rest);
      var ls := FileLines(t);
      assert ls == [t[..n]] + FileLines(rest);
      SplitHead(t[..n], FileLines(rest));
      assert Join(ls) == t[..n] + Join(FileLines(rest));
      SplitAt(t, n);
    }
  }

  /** A sequence is its first n elements followed by the rest. */
  lemma SplitAt<T>(s: seq<T>, n: nat)
    requires n <= |s|
    ensures s == s[..n] + s[n..]
  {
  }

  /** A sequence is the part before position k, element k and the part after it. */
  lemma SplitAround<T>(s: seq<T>, k: nat)
    requires k < |s|
    ensures s == s[..k] + [s[k]] + s[k + 1..]
  {
  }

  /** x is an element of a + [x] + b. */
  lemma InMiddle<T>(x: T, a: seq<T>, b: seq<T>)
    ensures x in a + [x] + b
  {
    assert (a + [x] + b)[|a|] == x;
  }

  /** An element of b is an element of a + b. */
  lemma InRight<T>(x: T, a: seq<T>, b: seq<T>)
    requires x in b
    ensures x in a + b
  {
  }

  /** The head and tail of [x] + s are x and s. */
  lemma SplitHead<T>(x: T, s: seq<T>)
    ensures ([x] + s)[0] == x && ([x] + s)[1..] == s
  {
  }

  /**
   * Each line ends at the first '\n' after the previous one: no line holds
   * a '\n' before its last character, and every line but the last ends
   * with one.
   */
  lemma {:induction false} FileLinesBreaks(t: string)
    ensures forall k :: 0 <= k < |FileLines(t)| ==>
      FileLines(t)[k] != [] && '\n' !in FileLines(t)[k][..|FileLines(t)[k]| - 1]
      && (k < |FileLines(t)| - 1 ==> FileLines(t)[k][|FileLines(t)[k]| - 1] == '\n')
    decreases |t|
  {
    if t != [] {
      var n := LineLength(t);
      var line, rest := t[..n], t[n..];
      FileLinesBreaks(rest);
      var ls, more := FileLines(t), FileLines(rest);
      assert ls == [line] + more;
      SplitHead(line, more);
      assert line[..n - 1] == t[..n - 1];
      assert |ls| > 1 ==> n < |t| && line[n - 1] == '\n';
      forall k | 0 <= k < |ls|
        ensures ls[k] != [] && '\n' !in ls[k][..|ls[k]| - 1] && (k < |ls| - 1 ==> ls[k][|ls[k]| - 1] == '\n')
      {
        if k == 0 {
          assert ls[k] == line;
        } else {
          assert ls[k] == more[k - 1];
        }
      }
    }
  }

  lemma {:induction false} FileLinesNonEmpty(t: string)
    ensures forall k :: 0 <= k < |FileLines(t)| ==> FileLines(t)[k] != []
    decreases |t|
  {
    if t != [] {
      var n := LineLength(t);
      var rest := t[n..];
      FileLinesNonEmpty(rest);
      var ls := FileLines(t);
      assert ls == [t[..n]] + FileLines(rest);
      forall k | 0 <= k < |ls|
        ensures ls[k] != []
      {
        if k > 0 {
          assert ls[k] == FileLines(rest)[k - 1];
        }
      }
    }
  }

  function Join(ls: seq<string>): string
  {
    if ls == [] then [] else ls[0] + Join(ls[1..])
  }

  /** The characters Python's str.isspace accepts. */
  predicate IsSpace(c: char): (b: bool)
    ensures c == ' ' || c == '\t' || c == '\n' || c == '\r' || c as int == 11 || c as int == 12 ==> b
    ensures b ==> !IsHexDigit(c) && c != '+' && c != '-' && c != '_'
  {
    var n := c as int;
    n == 9 || n == 10 || n == 11 || n == 12 || n == 13 || 28 <= n <= 32
    || n == 133 || n == 160 || n == 5760 || 8192 <= n <= 8202
    || n == 8232 || n == 8233 || n == 8239 || n == 8287 || n == 12288
  }

  function StripLeft(s: string): (r: string)
    ensures |r| <= |s| && r == s[|s| - |r|..]
    ensures r != [] ==> !IsSpace(r[0])
    ensures forall i :: 0 <= i < |s| - |r| ==> IsSpace(s[i])
  {
    if s != [] && IsSpace(s[0]) then
      var r := StripLeft(s[1..]);
      assert forall i :: 1 <= i < |s| ==> s[i] == s[1..][i - 1];
      r
    else s
  }

  function StripRight(s: string): (r: string)
    ensures |r| <= |s| && r == s[..|r|]
    ensures r != [] ==> !IsSpace(r[|r| - 1])
    ensures forall i :: |r| <= i < |s| ==> IsSpace(s[i])
  {
    if s != [] && IsSpace(s[|s| - 1]) then StripRight(s[..|s| - 1]) else s
  }

  /** str.strip(): the line without its leading and trailing whitespace. */
  function Strip(s: string): (r: string)
    ensures r != [] ==> !IsSpace(r[0]) && !IsSpace(r[|r| - 1])
  {
    StripRight(StripLeft(s))
  }

  /** Stripping removes exactly the whitespace around the text and nothing else. */
  lemma StripBounds(s: string)
    ensures exists i, j :: (0 <= i <= j <= |s| && Strip(s) == s[i..j]
      && (forall k :: 0 <= k < i ==> IsSpace(s[k])) && (forall k :: j <= k < |s| ==> IsSpace(s[k])))
  {
    var l := StripLeft(s);
    var r := StripRight(l);
    var i := |s| - |l|;
    assert Strip(s) == s[i..i + |r|];
  }

  /** The trimmed, non-blank lines, in file order. */
  function NonBlank(ls: seq<string>): (r: seq<string>)
    ensures |r| <= |ls|
  {
    if ls == [] then []
    else (if Strip(ls[0]) == [] then [] else [Strip(ls[0])]) + NonBlank(ls[1..])
  }

  /** One line is kept, stripped, exactly when it is not blank. */
  lemma NonBlankOne(line: string)
    ensures Strip(line) == [] ==> NonBlank([line]) == []
    ensures Strip(line) != [] ==> NonBlank([line]) == [Strip(line)]
  {
    assert [line][1..] == [];
  }

  /**
   * The filter works line by line: the kept lines of a + b are those of a
   * followed by those of b. With NonBlankOne this fixes the order and the
   * number of the kept lines, duplicates included.
   */
  lemma {:induction false} NonBlankAppend(a: seq<string>, b: seq<string>)
    ensures NonBlank(a + b) == NonBlank(a) + NonBlank(b)
  {
    if a == [] {
      assert a + b == b;
    } else {
      var head := if Strip(a[0]) == [] then [] else [Strip(a[0])];
      assert (a + b)[0] == a[0] && (a + b)[1..] == a[1..] + b;
      NonBlankAppend(a[1..], b);
      assert NonBlank(a + b) == head + NonBlank(a[1..] + b);
    }
  }

  /** Every kept line is a non-empty stripped input line, with no whitespace at either end. */
  lemma NonBlankSound(ls: seq<string>)
    ensures forall x :: x in NonBlank(ls) ==> x != [] && !IsSpace(x[0]) && !IsSpace(x[|x| - 1])
    ensures forall x :: x in NonBlank(ls) ==> exists k :: 0 <= k < |ls| && x == Strip(ls[k])
  {
    NonBlankOrigin(ls);
  }

  lemma {:induction false} NonBlankOrigin(ls: seq<string>)
    ensures forall x :: x in NonBlank(ls) ==> x != [] && exists k :: 0 <= k < |ls| && x == Strip(ls[k])
  {
    if ls != [] {
      var rest := ls[1..];
      NonBlankOrigin(rest);
      var first := Strip(ls[0]);
      var kept := NonBlank(rest);
      forall x | x in kept
        ensures exists k :: 0 <= k < |ls| && x == Strip(ls[k])
      {
        var k :| 0 <= k < |rest| && x == Strip(rest[k]);
        assert ls[k + 1] == rest[k];
      }
      if first == [] {
        assert NonBlank(ls) == kept;
      } else {
        assert NonBlank(ls) == [first] + kept;
        forall x | x in [first] + kept
          ensures x != [] && exists k :: 0 <= k < |ls| && x == Strip(ls[k])
        {
          if x !in kept {
            assert x == Strip(ls[0]);
          }
        }
      }
    }
  }

  /** Every input line that is not blank once stripped is kept. */
  lemma NonBlankComplete(ls: seq<string>)
    ensures forall k :: 0 <= k < |ls| && Strip(ls[k]) != [] ==> Strip(ls[k]) in NonBlank(ls)
  {
    forall k | 0 <= k < |ls| && Strip(ls[k]) != []
      ensures Strip(ls[k]) in NonBlank(ls)
    {
      NonBlankKeeps(ls, k);
    }
  }

  lemma NonBlankKeeps(ls: seq<string>, k: nat)
    requires k < |ls| && Strip(ls[k]) != []
    ensures Strip(ls[k]) in NonBlank(ls)
  {
    var before, line, after := ls[..k], ls[k], ls[k + 1..];
    SplitAround(ls, k);
    NonBlankAppend(before + [line], after);
    NonBlankAppend(before, [line]);
    NonBlankOne(line);
    InMiddle(Strip(line), NonBlank(before), NonBlank(after));
  }

  /** The lines the decoder works on. */
  function HexLines(text: string): (ls: seq<string>)
    ensures |ls| <= |text|
    ensures forall k :: 0 <= k < |ls| ==> ls[k] != [] && !IsSpace(ls[k][0]) && !IsSpace(ls[k][|ls[k]| - 1])
  {
    NonBlankSound(FileLines(UniversalNewlines(text)));
    NonBlank(FileLines(UniversalNewlines(text)))
  }

  // ---------------------------------------------------------------------
  // Parsing one line: int(line, 16)
  // ---------------------------------------------------------------------

  predicate IsHexDigit(c: char)
  {
    '0' <= c <= '9' || 'a' <= c <= 'f' || 'A' <= c <= 'F'
  }

  function DigitValue(c: char): (d: nat)
    requires IsHexDigit(c)
    ensures d < 16
  {
    if '0' <= c <= '9' then c as int - '0' as int
    else if 'a' <= c <= 'f' then c as int - 'a' as int + 10
    else c as int - 'A' as int + 10
  }

  /**
   * A run of hex digits in which single underscores may separate digits:
   * it starts with a digit, and every underscore is followed by a digit.
   */
  predicate DigitsOk(s: string): (b: bool)
    ensures b ==> s != [] && IsHexDigit(s[0]) && IsHexDigit(s[|s| - 1])
    ensures b ==> forall i :: 0 <= i < |s| - 1 && s[i] == '_' ==> s[i + 1] != '_'
  {
    |s| > 0 && IsHexDigit(s[0]) && DigitChars(s)
    && forall i :: 0 <= i < |s| && s[i] == '_' ==> i + 1 < |s| && IsHexDigit(s[i + 1])
  }

  predicate DigitChars(s: string)
  {
    forall i :: 0 <= i < |s| ==> IsHexDigit(s[i]) || s[i] == '_'
  }

  /** The number the digits of s spell, underscores skipped. */
  function DigitsValue(s: string): (v: nat)
    requires DigitChars(s)
    ensures v < Pow16(|s|)
  {
    if s == [] then 0
    else if s[|s| - 1] == '_' then DigitsValue(s[..|s| - 1])
    else 16 * DigitsValue(s[..|s| - 1]) + DigitValue(s[|s| - 1])
  }

  /** 16 to the power n: the bound on the value of n digits. */
  function Pow16(n: nat): (p: nat)
    ensures p >= 1
  {
    if n == 0 then 1 else 16 * Pow16(n - 1)
  }

  /** An unsigned literal: an optional 0x / 0X prefix (an underscore may follow it), then digits. */
  function ParseUnsigned(s: string): (r: Option<nat>)
    ensures DigitsOk(s) ==> r == Some(DigitsValue(s))
    ensures r.Some? ==> s != [] && IsHexDigit(s[0]) && IsHexDigit(s[|s| - 1])
  {
    if |s| >= 2 && s[0] == '0' && (s[1] == 'x' || s[1] == 'X') then
      var body := if |s| >= 3 && s[2] == '_' then s[3..] else s[2..];
      if DigitsOk(body) then Some(DigitsValue(body)) else None
    else if DigitsOk(s) then Some(DigitsValue(s)) else None
  }

  /** int(s, 16) on a trimmed line: an optional sign, then an unsigned literal. */
  function ParseHexLiteral(s: string): (r: Option<int>)
    ensures DigitsOk(s) ==> r == Some(DigitsValue(s))
    ensures r.Some? ==> s != [] && IsHexDigit(s[|s| - 1])
    ensures r.Some? && r.value < 0 ==> s[0] == '-'
  {
    if |s| > 0 && (s[0] == '+' || s[0] == '-') then
      match ParseUnsigned(s[1..])
      case None => None
      case Some(n) => Some(if s[0] == '-' then -(n as int) else n as int)
    else match ParseUnsigned(s)
      case None => None
      case Some(n) => Some(n)
  }

  /** Why line is rejected, or None when it holds a sample. */
  function Classify(line: string): (r: Option<Reason>)
    ensures r.None? <==> ParseHexLiteral(line).Some? && 0 <= ParseHexLiteral(line).value <= 255
    ensures r == Some(InvalidHex) <==> ParseHexLiteral(line).None?
  {
    match ParseHexLiteral(line)
    case None => Some(InvalidHex)
    case Some(v) => if 0 <= v <= 255 then None else Some(OutOfRange)
  }

  /** int(line, 16) accepts a sign, a 0x prefix (an underscore may follow it) and single underscores between digits. */
  lemma ParseAccepts()
    ensures ParseHexLiteral("ff") == Some(255) && ParseHexLiteral("0xFF") == Some(255)
    ensures ParseHexLiteral("0x_f") == Some(15)
  {
    assert ParseHexLiteral("ff") == Some(255) by {
      assert DigitsValue("f") == 15 by { assert "f"[..0] == ""; }
      assert DigitsValue("ff") == 255 by { assert "ff"[..1] == "f"; }
      assert DigitsOk("ff");
    }
    assert ParseHexLiteral("0xFF") == Some(255) by {
      assert DigitsValue("F") == 15 by { assert "F"[..0] == ""; }
      assert DigitsValue("FF") == 255 by { assert "FF"[..1] == "F"; }
      assert DigitsOk("FF") && "0xFF"[2..] == "FF";
    }
    assert ParseHexLiteral("0x_f") == Some(15) by {
      assert DigitsValue("f") == 15 by { assert "f"[..0] == ""; }
      assert DigitsOk("f") && "0x_f"[3..] == "f";
    }
  }

  /** An underscore between two digits and a leading plus sign are accepted too. */
  lemma ParseAcceptsSeparators()
    ensures ParseHexLiteral("f_f") == Some(255) && ParseHexLiteral("+7") == Some(7)
  {
    assert DigitsValue("f_f") == 255 by { assert "f_f"[..2] == "f_"; assert "f_"[..1] == "f"; assert "f"[..0] == ""; }
    assert DigitsValue("7") == 7 by { assert "7"[..0] == ""; }
    assert DigitsOk("f_f") && DigitsOk("7");
  }

  /** A negative value or a third digit parses, but the value is out of range. */
  lemma ParseOutOfRange()
    ensures ParseHexLiteral("-1") == Some(-1) && Classify("-1") == Some(OutOfRange)
    ensures ParseHexLiteral("100") == Some(256) && Classify("100") == Some(OutOfRange)
  {
    assert DigitsValue("1") == 1 by { assert "1"[..0] == ""; }
    assert DigitsValue("100") == 256 by { assert "100"[..2] == "10"; assert "10"[..1] == "1"; }
    assert DigitsOk("1") && DigitsOk("100");
  }

  /** A foreign character, a doubled, leading or trailing underscore, a bare prefix and an empty line are rejected. */
  lemma ParseRejects()
    ensures ParseHexLiteral("g1") == None && ParseHexLiteral("f__f") == None && ParseHexLiteral("_f") == None
    ensures ParseHexLiteral("f_") == None && ParseHexLiteral("0x") == None && ParseHexLiteral("") == None
    ensures Classify("zz") == Some(InvalidHex)
  {
    assert "f__f"[1] == '_' && !IsHexDigit("f__f"[2]);
    assert "f_"[1] == '_' && |"f_"| == 2;
    assert !IsHexDigit("g1"[0]) && !IsHexDigit("zz"[0]);
  }

  // ---------------------------------------------------------------------
  // The decoder
  // ---------------------------------------------------------------------

  /** The values appended to the pixel list: every line that parses, in range or not. */
  function Parsed(ls: seq<string>): (vs: seq<int>)
    ensures |vs| <= |ls|
  {
    if ls == [] then []
    else Parsed(ls[..|ls| - 1]) + match ParseHexLiteral(ls[|ls| - 1]) case None => [] case Some(v) => [v]
  }

  /** The bad-line entries the scan records for the lines ls. */
  function BadEntries(ls: seq<string>): (es: seq<BadLine>)
    ensures |es| <= |ls|
  {
    if ls == [] then [] else BadEntries(ls[..|ls| - 1]) + EntryFor(|ls|, ls[|ls| - 1])
  }

  /** One more line: the scan appends its value if it parses and an entry if it is bad. */
  lemma ScanStep(ls: seq<string>, line: string)
    ensures Parsed(ls + [line]) == Parsed(ls) + match ParseHexLiteral(line) case None => [] case Some(v) => [v]
    ensures BadEntries(ls + [line]) == BadEntries(ls) + EntryFor(|ls| + 1, line)
  {
    var more := ls + [line];
    assert more[..|more| - 1] == ls && more[|more| - 1] == line;
  }

  /** The first i + 1 elements are the first i and element i. */
  lemma PrefixGrows<T>(s: seq<T>, i: nat)
    requires i < |s|
    ensures s[..i + 1] == s[..i] + [s[i]] && |s[..i]| == i
  {
  }

  /** A non-empty sequence is its front followed by its last element. */
  lemma LastSplit<T>(s: seq<T>)
    requires s != []
    ensures s == s[..|s| - 1] + [s[|s| - 1]]
  {
  }

  /** A line that does not parse adds an InvalidHex entry and no value. */
  lemma ScanInvalid(ls: seq<string>, line: string)
    requires ParseHexLiteral(line).None?
    ensures Parsed(ls + [line]) == Parsed(ls)
    ensures BadEntries(ls + [line]) == BadEntries(ls) + [BadLine(|ls| + 1, line, InvalidHex)]
  {
    ScanStep(ls, line);
  }

  /** A value out of range adds an OutOfRange entry and is still appended. */
  lemma ScanOutOfRange(ls: seq<string>, line: string, v: int)
    requires ParseHexLiteral(line) == Some(v) && !(0 <= v <= 255)
    ensures Parsed(ls + [line]) == Parsed(ls) + [v]
    ensures BadEntries(ls + [line]) == BadEntries(ls) + [BadLine(|ls| + 1, line, OutOfRange)]
  {
    ScanStep(ls, line);
  }

  /** A sample is appended and adds no entry. */
  lemma ScanInRange(ls: seq<string>, line: string, v: int)
    requires ParseHexLiteral(line) == Some(v) && 0 <= v <= 255
    ensures Parsed(ls + [line]) == Parsed(ls) + [v]
    ensures BadEntries(ls + [line]) == BadEntries(ls)
  {
    ScanStep(ls, line);
  }

  /** Entry e names a bad line of ls by its 1-based position, with that line's text and reason. */
  predicate Records(ls: seq<string>, e: BadLine)
  {
    1 <= e.index <= |ls| && e.text == ls[e.index - 1] && Classify(ls[e.index - 1]) == Some(e.reason)
  }

  /** The entry the scan adds for one line, if any. */
  function EntryFor(n: nat, line: string): seq<BadLine>
  {
    match Classify(line)
    case None => []
    case Some(why) => [BadLine(n, line, why)]
  }

  /** Every recorded entry names a bad line, with its own text and reason, and the entries are in line order. */
  lemma {:induction false} BadEntriesSound(ls: seq<string>)
    ensures forall k :: 0 <= k < |BadEntries(ls)| ==> Records(ls, BadEntries(ls)[k])
    ensures forall k, k' :: 0 <= k < k' < |BadEntries(ls)| ==> BadEntries(ls)[k].index < BadEntries(ls)[k'].index
  {
    if ls != [] {
      var init := ls[..|ls| - 1];
      BadEntriesSound(init);
      var e := BadEntries(ls);
      var ei := BadEntries(init);
      var tail := EntryFor(|ls|, ls[|ls| - 1]);
      assert e == ei + tail;
      forall k | 0 <= k < |e|
        ensures Records(ls, e[k])
      {
        if k < |ei| {
          assert e[k] == ei[k] && Records(init, ei[k]);
          assert ls[ei[k].index - 1] == init[ei[k].index - 1];
        } else {
          assert e[k] == tail[0];
        }
      }
      forall k, k' | 0 <= k < k' < |e|
        ensures e[k].index < e[k'].index
      {
        assert e[k] == ei[k] && Records(init, ei[k]);
        if k' < |ei| {
          assert e[k'] == ei[k'];
        } else {
          assert e[k'] == tail[0];
        }
      }
    }
  }

  /** Every bad line is recorded: the scan never stops early. */
  lemma {:induction false} BadEntriesComplete(ls: seq<string>)
    ensures forall i :: 0 <= i < |ls| && Classify(ls[i]).Some? ==>
      exists k :: 0 <= k < |BadEntries(ls)| && BadEntries(ls)[k].index == i + 1
  {
    if ls != [] {
      var init := ls[..|ls| - 1];
      BadEntriesComplete(init);
      var e := BadEntries(ls);
      var ei := BadEntries(init);
      var tail := EntryFor(|ls|, ls[|ls| - 1]);
      assert e == ei + tail;
      forall i | 0 <= i < |ls| && Classify(ls[i]).Some?
        ensures exists k :: 0 <= k < |BadEntries(ls)| && BadEntries(ls)[k].index == i + 1
      {
        if i < |ls| - 1 {
          assert ls[i] == init[i] && Classify(init[i]).Some?;
          var k :| 0 <= k < |ei| && ei[k].index == i + 1;
          assert e[k] == ei[k];
          assert 0 <= k < |BadEntries(ls)| && BadEntries(ls)[k].index == i + 1;
        } else {
          assert tail == [BadLine(|ls|, ls[i], Classify(ls[i]).value)];
          assert e[|e| - 1] == tail[0];
          assert BadEntries(ls)[|e| - 1].index == i + 1;
        }
      }
    }
  }

  /** With no bad line every line parses to a sample and the pixel list is those samples, in order. */
  lemma {:induction false} ParsedWhenClean(ls: seq<string>)
    requires BadEntries(ls) == []
    ensures |Parsed(ls)| == |ls|
    ensures forall i :: 0 <= i < |ls| ==> 0 <= Parsed(ls)[i] <= 255 && ParseHexLiteral(ls[i]) == Some(Parsed(ls)[i])
  {
    if ls != [] {
      var init, last := ls[..|ls| - 1], ls[|ls| - 1];
      assert BadEntries(init) == [] && EntryFor(|ls|, last) == [] by {
        assert BadEntries(ls) == BadEntries(init) + EntryFor(|ls|, last);
      }
      ParsedWhenClean(init);
      var v := ParseHexLiteral(last).value;
      assert 0 <= v <= 255 by {
        assert Classify(last) == None;
      }
      assert Parsed(ls) == Parsed(init) + [v];
      assert ls == init + [last];
      CleanExtend(init, Parsed(init), last, v);
    }
  }

  /** Appending one clean line and its value keeps the line-by-line agreement. */
  lemma CleanExtend(ls: seq<string>, vs: seq<int>, last: string, v: int)
    requires |vs| == |ls| && forall i :: 0 <= i < |ls| ==> 0 <= vs[i] <= 255 && ParseHexLiteral(ls[i]) == Some(vs[i])
    requires 0 <= v <= 255 && ParseHexLiteral(last) == Some(v)
    ensures forall i :: 0 <= i < |ls| + 1 ==> 0 <= (vs + [v])[i] <= 255 && ParseHexLiteral((ls + [last])[i]) == Some((vs + [v])[i])
  {
    forall i | 0 <= i < |ls| + 1
      ensures 0 <= (vs + [v])[i] <= 255 && ParseHexLiteral((ls + [last])[i]) == Some((vs + [v])[i])
    {
      if i < |ls| {
        assert (ls + [last])[i] == ls[i] && (vs + [v])[i] == vs[i];
      }
    }
  }

  /** The scan's bad-line count is non-zero exactly when some line is bad. */
  lemma BadEntriesEmptyIff(ls: seq<string>)
    ensures BadEntries(ls) == [] <==> forall i :: 0 <= i < |ls| ==> Classify(ls[i]) == None
  {
    if BadEntries(ls) != [] {
      BadEntriesSound(ls);
      assert Records(ls, BadEntries(ls)[0]);
    } else {
      BadEntriesComplete(ls);
    }
  }

  function ToBytes(px: seq<int>): (bs: seq<Byte>)
    requires forall i :: 0 <= i < |px| ==> 0 <= px[i] <= 255
    ensures bs == px
  {
    seq(|px|, i requires 0 <= i < |px| => px[i])
  }

  /** The samples of a file without bad lines: one byte per line, the line's value. */
  function CleanPixels(ls: seq<string>): (px: seq<Byte>)
    requires BadEntries(ls) == []
    ensures |px| == |ls|
    ensures forall i :: 0 <= i < |ls| ==> ParseHexLiteral(ls[i]) == Some(px[i] as int)
  {
    ParsedWhenClean(ls);
    ToBytes(Parsed(ls))
  }

  function Min(a: nat, b: nat): nat
  {
    if a <= b then a else b
  }

  /** What loading the HEX file text yields: the grid, or the error the loader reports before exiting. */
  function Decode(text: string, rows: nat, cols: nat): (r: Result<Grid, LoadError>)
    ensures |HexLines(text)| != rows * cols ==> r == Err(CountMismatch(rows * cols, |HexLines(text)|))
    ensures r.Err? && r.error.InvalidLines? ==> 1 <= r.error.total && |r.error.preview| == Min(PreviewLength, r.error.total)
    ensures r.Ok? ==> IsGrid(r.value, rows, cols)
  {
    var ls := HexLines(text);
    if |ls| != rows * cols then Err(CountMismatch(rows * cols, |ls|))
    else
      var bad := BadEntries(ls);
      if bad != [] then Err(InvalidLines(|bad|, bad[..Min(PreviewLength, |bad|)]))
      else Ok(Reshape(CleanPixels(ls), rows, cols))
  }

  /**
   * The scan: every line is parsed, each parsed value (in range or not)
   * is appended to the pixel list and each rejected line to the bad-line
   * list; the scan never stops early.
   */
  method ScanLines(lines: seq<string>) returns (pixels: seq<int>, badLines: seq<BadLine>)
    ensures pixels == Parsed(lines) && badLines == BadEntries(lines)
  {
    pixels := [];
    badLines := [];
    var i := 0;
    while i < |lines|
      invariant i <= |lines|
      invariant pixels == Parsed(lines[..i])
      invariant badLines == BadEntries(lines[..i])
    {
      var line := lines[i];
      ghost var seen := lines[..i];
      PrefixGrows(lines, i);
      match ParseHexLiteral(line) {
        case None =>
          ScanInvalid(seen, line);
          badLines := badLines + [BadLine(i + 1, line, InvalidHex)];
        case Some(v) =>
          if !(0 <= v <= 255) {
            ScanOutOfRange(seen, line, v);
            badLines := badLines + [BadLine(i + 1, line, OutOfRange)];
          } else {
            ScanInRange(seen, line, v);
          }
          pixels := pixels + [v];
      }
      assert pixels == Parsed(seen + [line]) && badLines == BadEntries(seen + [line]);
      i := i + 1;
    }
    assert lines[..i] == lines;
  }

  /**
   * The loader: trims and filters the lines, checks the count, scans every
   * line and fails if any was rejected; otherwise reshapes the pixel list.
   */
  method LoadHex(text: string, rows: nat, cols: nat) returns (r: Result<Grid, LoadError>)
    ensures r == Decode(text, rows, cols)
  {
    var lines := HexLines(text);
    if |lines| != rows * cols {
      return Err(CountMismatch(rows * cols, |lines|));
    }
    var pixels, badLines := ScanLines(lines);
    if badLines != [] {
      return Err(InvalidLines(|badLines|, badLines[..Min(PreviewLength, |badLines|)]));
    }
    ParsedWhenClean(lines);
    r := Ok(Reshape(ToBytes(pixels), rows, cols));
  }

  // ---------------------------------------------------------------------
  // What the decoder promises
  // ---------------------------------------------------------------------

  /** Any number of non-blank lines other than rows * cols, none included, is an error, whatever the lines hold. */
  lemma DecodeCountChecked(text: string, rows: nat, cols: nat)
    ensures Decode(text, rows, cols).Err? && Decode(text, rows, cols).error.CountMismatch?
      <==> |HexLines(text)| != rows * cols
    ensures |HexLines(text)| != rows * cols ==>
      Decode(text, rows, cols) == Err(CountMismatch(rows * cols, |HexLines(text)|))
  {
  }

  /**
   * With the right count, loading fails exactly when some line is bad; the
   * error gives the number of bad lines and the first five of them.
   */
  lemma DecodeFailsIffBadLine(text: string, rows: nat, cols: nat)
    requires |HexLines(text)| == rows * cols
    ensures Decode(text, rows, cols).Err? <==> exists i :: 0 <= i < |HexLines(text)| && Classify(HexLines(text)[i]).Some?
    ensures Decode(text, rows, cols).Err? ==>
      var ls := HexLines(text);
      Decode(text, rows, cols) == Err(InvalidLines(|BadEntries(ls)|, BadEntries(ls)[..Min(PreviewLength, |BadEntries(ls)|)]))
      && |Decode(text, rows, cols).error.preview| <= PreviewLength
  {
    BadEntriesEmptyIff(HexLines(text));
  }

  /**
   * On success the grid has the requested shape and, read in row-major
   * order, holds the values of the non-blank lines in line order.
   */
  lemma DecodeSuccess(text: string, rows: nat, cols: nat)
    requires Decode(text, rows, cols).Ok?
    ensures IsGrid(Decode(text, rows, cols).value, rows, cols)
    ensures |Flatten(Decode(text, rows, cols).value)| == |HexLines(text)|
    ensures forall i :: 0 <= i < |HexLines(text)| ==>
      ParseHexLiteral(HexLines(text)[i]) == Some(Flatten(Decode(text, rows, cols).value)[i] as int)
  {
    var ls := HexLines(text);
    FlattenReshape(CleanPixels(ls), rows, cols);
  }

  // ---------------------------------------------------------------------
  // The encoder
  // ---------------------------------------------------------------------

  function HexDigit(d: nat): (c: char)
    requires d < 16
    ensures IsHexDigit(c) && DigitValue(c) == d
    ensures '0' <= c <= '9' || 'A' <= c <= 'F'
  {
    "0123456789ABCDEF"[d]
  }

  /** "%02X": two upper-case hex digits, zero-padded. */
  function Hex2(v: Byte): (s: string)
    ensures |s| == 2 && IsHexDigit(s[0]) && IsHexDigit(s[1])
    ensures 16 * DigitValue(s[0]) + DigitValue(s[1]) == v
    ensures forall k :: 0 <= k < 2 ==> '0' <= s[k] <= '9' || 'A' <= s[k] <= 'F'
  {
    [HexDigit(v / 16), HexDigit(v % 16)]
  }

  /** The text written for the samples px: one "%02X\n" line each. */
  function EncodeText(px: seq<Byte>): (t: string)
    ensures |t| == 3 * |px|
  {
    if px == [] then [] else Hex2(px[0]) + "\n" + EncodeText(px[1..])
  }

  /** Writing one more sample appends its line to the text. */
  lemma {:induction false} EncodeTextAppend(px: seq<Byte>, v: Byte)
    ensures EncodeText(px + [v]) == EncodeText(px) + Hex2(v) + "\n"
  {
    if px != [] {
      assert (px + [v])[1..] == px[1..] + [v];
      EncodeTextAppend(px[1..], v);
    }
  }

  /** The encoded text of a sample is a literal that parses back to it. */
  lemma ParseHex2(v: Byte)
    ensures Strip(Hex2(v) + "\n") == Hex2(v)
    ensures ParseHexLiteral(Hex2(v)) == Some(v as int)
    ensures Classify(Hex2(v)) == None
  {
    var s := Hex2(v);
    assert Strip(s + "\n") == s by {
      StripDigitLine(s);
    }
    assert ParseHexLiteral(s) == Some(v as int) by {
      ParseDigitPair(s);
    }
  }

  /** Two hex digits and a newline strip to the two digits. */
  lemma StripDigitLine(s: string)
    requires |s| == 2 && IsHexDigit(s[0]) && IsHexDigit(s[1])
    ensures Strip(s + "\n") == s
  {
    var t := s + "\n";
    assert !IsSpace(t[0]) && IsSpace(t[2]);
    assert StripLeft(t) == t;
    assert t[..2] == s;
    assert StripRight(t) == StripRight(s);
    assert !IsSpace(s[1]);
  }

  /** Two hex digits parse to their value: no sign, no prefix, no underscore. */
  lemma ParseDigitPair(s: string)
    requires |s| == 2 && IsHexDigit(s[0]) && IsHexDigit(s[1])
    ensures ParseHexLiteral(s) == Some(16 * DigitValue(s[0]) + DigitValue(s[1]))
  {
    assert DigitsOk(s);
    assert s[..1][..0] == [];
    assert DigitsValue(s[..1]) == DigitValue(s[0]);
    assert DigitsValue(s) == 16 * DigitValue(s[0]) + DigitValue(s[1]);
    assert ParseUnsigned(s) == Some(16 * DigitValue(s[0]) + DigitValue(s[1]));
  }

  /** The lines of the encoded text are the encoded samples, one each. */
  lemma {:induction false} HexLinesOfEncoding(px: seq<Byte>)
    ensures HexLines(EncodeText(px)) == DigitLines(px)
  {
    NoCrInEncoding(px);
    UniversalNewlinesNoCr(EncodeText(px));
    NonBlankOfEncoding(px);
  }

  lemma {:induction false} NoCrInEncoding(px: seq<Byte>)
    ensures '\r' !in EncodeText(px)
  {
    if px != [] {
      NoCrInEncoding(px[1..]);
    }
  }

  /** The two-digit text of each sample, one line each, without newlines. */
  function DigitLines(px: seq<Byte>): (ls: seq<string>)
    ensures |ls| == |px|
  {
    seq(|px|, i requires 0 <= i < |px| => Hex2(px[i]))
  }

  lemma DigitLinesCons(px: seq<Byte>)
    requires px != []
    ensures DigitLines(px) == [Hex2(px[0])] + DigitLines(px[1..])
  {
    assert forall i :: 1 <= i < |px| ==> DigitLines(px)[i] == DigitLines(px[1..])[i - 1];
  }

  lemma DigitLinesSnoc(px: seq<Byte>)
    requires px != []
    ensures DigitLines(px) == DigitLines(px[..|px| - 1]) + [Hex2(px[|px| - 1])]
  {
    assert forall i :: 0 <= i < |px| - 1 ==> DigitLines(px)[i] == DigitLines(px[..|px| - 1])[i];
  }

  /** The first line of the encoded text is the first sample's line. */
  lemma EncodingFirstLine(px: seq<Byte>)
    requires px != []
    ensures FileLines(EncodeText(px)) == [Hex2(px[0]) + "\n"] + FileLines(EncodeText(px[1..]))
  {
    var t := EncodeText(px);
    var line := Hex2(px[0]) + "\n";
    assert t == line + EncodeText(px[1..]);
    assert t[0] != '\n' && t[1] != '\n' && t[2] == '\n';
    assert t[1..][1..] == t[2..];
    assert LineLength(t[2..]) == 1;
    assert LineLength(t[1..]) == 2;
    assert LineLength(t) == 3;
    assert t[..3] == line && t[3..] == EncodeText(px[1..]);
  }

  lemma {:induction false} NonBlankOfEncoding(px: seq<Byte>)
    ensures NonBlank(FileLines(EncodeText(px))) == DigitLines(px)
  {
    if px != [] {
      var line := Hex2(px[0]) + "\n";
      var rest := FileLines(EncodeText(px[1..]));
      EncodingFirstLine(px);
      assert NonBlank([line] + rest) == [Hex2(px[0])] + NonBlank(rest) by {
        ParseHex2(px[0]);
        assert ([line] + rest)[0] == line;
        assert ([line] + rest)[1..] == rest;
      }
      NonBlankOfEncoding(px[1..]);
      DigitLinesCons(px);
    }
  }

  /** With every line a sample, the scan records no bad line and appends exactly the samples. */
  lemma {:induction false} ScanOfEncoding(px: seq<Byte>)
    ensures BadEntries(DigitLines(px)) == []
    ensures Parsed(DigitLines(px)) == px
  {
    if px != [] {
      var init := px[..|px| - 1];
      var v := px[|px| - 1];
      ScanOfEncoding(init);
      DigitLinesSnoc(px);
      ParseHex2(v);
      ScanInRange(DigitLines(init), Hex2(v), v as int);
      LastSplit(px);
    }
  }

  /** Round trip: decoding the text written for a rows x cols grid gives the grid back. */
  lemma DecodeEncode(g: Grid, rows: nat, cols: nat)
    requires IsGrid(g, rows, cols)
    ensures Decode(EncodeText(Flatten(g)), rows, cols) == Ok(g)
  {
    var px := Flatten(g);
    FlattenLength(g, rows, cols);
    HexLinesOfEncoding(px);
    ScanOfEncoding(px);
    ReshapeFlatten(g, rows, cols);
  }

  // ---------------------------------------------------------------------
  // The other direction: loading, then writing again
  // ---------------------------------------------------------------------

  /** A line of exactly two hex digits, in either case. */
  predicate DigitPair(l: string)
  {
    |l| == 2 && IsHexDigit(l[0]) && IsHexDigit(l[1])
  }

  /** The upper-case form of a hex digit: 'a'..'f' become 'A'..'F', others stay. */
  function UpperDigit(c: char): (d: char)
    requires IsHexDigit(c)
    ensures IsHexDigit(d) && DigitValue(d) == DigitValue(c)
    ensures '0' <= d <= '9' || 'A' <= d <= 'F'
    ensures !('a' <= c <= 'f') ==> d == c
  {
    if 'a' <= c <= 'f' then (c as int - 'a' as int + 'A' as int) as char else c
  }

  /** The text of the lines ls with every digit upper-cased and a newline after each. */
  function CanonicalText(ls: seq<string>): (t: string)
    requires forall k :: 0 <= k < |ls| ==> DigitPair(ls[k])
    ensures |t| == 3 * |ls|
  {
    if ls == [] then []
    else
      assert DigitPair(ls[0]);
      [UpperDigit(ls[0][0]), UpperDigit(ls[0][1])] + "\n" + CanonicalText(ls[1..])
  }

  /** An upper-case hex digit is fixed by its value. */
  lemma UpperDigitUnique(x: char, y: char)
    requires '0' <= x <= '9' || 'A' <= x <= 'F'
    requires '0' <= y <= '9' || 'A' <= y <= 'F'
    requires DigitValue(x) == DigitValue(y)
    ensures x == y
  {
  }

  /** The value of a two-digit line. */
  function PairValue(l: string): (v: nat)
    requires DigitPair(l)
    ensures v <= 255
    ensures ParseHexLiteral(l) == Some(v)
  {
    ParseDigitPair(l);
    16 * DigitValue(l[0]) + DigitValue(l[1])
  }

  /** Writing the value of a two-digit line gives the line upper-cased. */
  lemma Hex2OfPair(l: string)
    requires DigitPair(l)
    ensures Hex2(PairValue(l)) == [UpperDigit(l[0]), UpperDigit(l[1])]
  {
    var hi, lo := DigitValue(l[0]), DigitValue(l[1]);
    var s := Hex2(PairValue(l));
    assert 16 * DigitValue(s[0]) + DigitValue(s[1]) == 16 * hi + lo;
    assert DigitValue(s[0]) == hi && DigitValue(s[1]) == lo;
    UpperDigitUnique(s[0], UpperDigit(l[0]));
    UpperDigitUnique(s[1], UpperDigit(l[1]));
  }

  /**
   * Samples read from two-digit lines are written back as those lines,
   * upper-cased.
   */
  lemma {:induction false} EncodeCanonical(px: seq<Byte>, ls: seq<string>)
    requires |px| == |ls|
    requires forall k :: 0 <= k < |ls| ==> DigitPair(ls[k]) && px[k] as int == PairValue(ls[k])
    ensures EncodeText(px) == CanonicalText(ls)
  {
    if px != [] {
      var l := ls[0];
      Hex2OfPair(l);
      var pt, lt := px[1..], ls[1..];
      forall k | 0 <= k < |lt|
        ensures DigitPair(lt[k]) && pt[k] as int == PairValue(lt[k])
      {
        assert lt[k] == ls[k + 1] && pt[k] == px[k + 1];
      }
      EncodeCanonical(pt, lt);
    }
  }

  /**
   * Round trip the other way: a text whose non-blank lines are
   * `rows * cols` two-digit hex pairs, in either case and with any
   * surrounding whitespace or blank lines, loads successfully, and
   * writing the grid back gives those lines upper-cased, one per line.
   */
  lemma EncodeOfDecode(text: string, rows: nat, cols: nat)
    requires |HexLines(text)| == rows * cols
    requires forall k :: 0 <= k < |HexLines(text)| ==> DigitPair(HexLines(text)[k])
    ensures Decode(text, rows, cols).Ok?
    ensures EncodeText(Flatten(Decode(text, rows, cols).value)) == CanonicalText(HexLines(text))
  {
    var ls := HexLines(text);
    forall k | 0 <= k < |ls|
      ensures Classify(ls[k]) == None
    {
      assert ParseHexLiteral(ls[k]) == Some(PairValue(ls[k]));
    }
    BadEntriesEmptyIff(ls);
    DecodeSuccess(text, rows, cols);
    var px := Flatten(Decode(text, rows, cols).value);
    forall k | 0 <= k < |ls|
      ensures px[k] as int == PairValue(ls[k])
    {
      assert ParseHexLiteral(ls[k]) == Some(PairValue(ls[k]));
    }
    EncodeCanonical(px, ls);
  }

  /**
   * Every written text meets EncodeOfDecode's premise, and is its own
   * canonical form: its lines are already upper case.
   */
  lemma WrittenTextIsCanonical(g: Grid, rows: nat, cols: nat)
    requires IsGrid(g, rows, cols)
    ensures |HexLines(EncodeText(Flatten(g)))| == rows * cols
    ensures forall k :: 0 <= k < |HexLines(EncodeText(Flatten(g)))| ==> DigitPair(HexLines(EncodeText(Flatten(g)))[k])
    ensures CanonicalText(HexLines(EncodeText(Flatten(g)))) == EncodeText(Flatten(g))
  {
    var px := Flatten(g);
    var text := EncodeText(px);
    FlattenLength(g, rows, cols);
    HexLinesOfEncoding(px);
    var ls := HexLines(text);
    forall k | 0 <= k < |ls|
      ensures DigitPair(ls[k])
    {
      assert ls[k] == Hex2(px[k]);
    }
    EncodeOfDecode(text, rows, cols);
    DecodeEncode(g, rows, cols);
    assert Decode(text, rows, cols).value == g;
  }

  /** Text mode turns the lone carriage return between two digit pairs into a newline. */
  lemma LoneCarriageReturnRead(a: string, b: string)
    requires |a| == 2 && IsHexDigit(a[0]) && IsHexDigit(a[1])
    requires |b| == 2 && IsHexDigit(b[0]) && IsHexDigit(b[1])
    ensures UniversalNewlines(a + "\r" + b + "\n") == a + "\n" + b + "\n"
  {
    var t := a + "\r" + b + "\n";
    var rest := b + "\n";
    assert '\r' !in rest;
    UniversalNewlinesNoCr(rest);
    assert t[2..][1..] == rest && t[2..][0] == '\r' && t[2..][1] != '\n';
    assert UniversalNewlines(t[2..]) == "\n" + rest;
    assert t[1..][1..] == t[2..];
    assert UniversalNewlines(t[1..]) == [a[1]] + "\n" + rest;
    assert a + "\n" + b + "\n" == [a[0]] + ([a[1]] + "\n" + rest);
  }

  /**
   * A lone carriage return ends a line in text mode: two written samples
   * separated by '\r' instead of '\n' read as the same two sample lines,
   * not as one line that fails to parse.
   */
  lemma LoneCarriageReturnSplits(va: Byte, vb: Byte)
    ensures HexLines(Hex2(va) + "\r" + Hex2(vb) + "\n") == HexLines(EncodeText([va, vb]))
    ensures HexLines(EncodeText([va, vb])) == [Hex2(va), Hex2(vb)]
  {
    var a, b := Hex2(va), Hex2(vb);
    var u := a + "\n" + b + "\n";
    assert UniversalNewlines(a + "\r" + b + "\n") == UniversalNewlines(u) by {
      LoneCarriageReturnRead(a, b);
      assert '\r' !in u;
      UniversalNewlinesNoCr(u);
    }
    SameReadSameLines(a + "\r" + b + "\n", u);
    TwoSamplesWritten(va, vb);
    HexLinesOfEncoding([va, vb]);
    assert DigitLines([va, vb]) == [a, b];
  }

  /** Texts that read the same in text mode give the same lines. */
  lemma SameReadSameLines(t: string, u: string)
    requires UniversalNewlines(t) == UniversalNewlines(u)
    ensures HexLines(t) == HexLines(u)
  {
  }

  /** Two samples are written as their two lines. */
  lemma TwoSamplesWritten(va: Byte, vb: Byte)
    ensures EncodeText([va, vb]) == Hex2(va) + "\n" + Hex2(vb) + "\n"
  {
    assert [va, vb][1..] == [vb] && [vb][1..] == [];
  }
}
