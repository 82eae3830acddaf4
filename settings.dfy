/** The settings file reader (class `Settings` of the start-up code): each
    line is cleaned in place, then the `key=value` lines are applied to the
    defaults one after the other. */
module Settings {
  import opened Text
  import opened Options

  /** The settings and their values before any line is read. */
  const Defaults: map<string, int> := map["screenwidth" := 600, "screenheight" := 400, "fps" := 60, "debug" := 0]

  // ---------------------------------------------------------------------
  // The string operations the reader uses
  // ---------------------------------------------------------------------

  /** `s` without its leading characters that satisfy `p`. */
  function StripLeading(s: string, p: char -> bool): (r: string)
    ensures |r| <= |s| && r == s[|s| - |r|..]
    ensures forall i :: 0 <= i < |s| - |r| ==> p(s[i])
    ensures r == [] || !p(r[0])
  {
    if s == [] || !p(s[0]) then s else StripLeading(s[1..], p)
  }

  /** `s` without its trailing characters that satisfy `p`. */
  function StripTrailing(s: string, p: char -> bool): (r: string)
    ensures |r| <= |s| && r == s[..|r|]
    ensures forall i :: |r| <= i < |s| ==> p(s[i])
    ensures r == [] || !p(r[|r| - 1])
  {
    if s == [] || !p(s[|s| - 1]) then s else StripTrailing(s[..|s| - 1], p)
  }

  /** `s.strip(chars)` for the characters satisfying `p`. */
  function Strip(s: string, p: char -> bool): string {
    StripTrailing(StripLeading(s, p), p)
  }

  /** `s.replace(c, '')` */
  function RemoveChar(s: string, c: char): (r: string)
    ensures forall x :: x in r <==> x in s && x != c
    ensures |r| == |s| - multiset(s)[c]
  {
    if s == [] then []
    else
      assert s == [s[0]] + s[1..];
      (if s[0] == c then [] else [s[0]]) + RemoveChar(s[1..], c)
  }

  predicate IsNewline(c: char) { c == '\n' }

  /** A line after lines 14-16: newlines stripped from both ends, then
      every tab and every space removed. */
  function Clean(line: string): (r: string)
    ensures '\t' !in r && ' ' !in r
    ensures forall x :: x in r ==> x in line
  {
    RemoveChar(RemoveChar(Strip(line, IsNewline), '\t'), ' ')
  }

  /** `f` applied to every line, in order. */
  function MapLines(lines: seq<string>, f: string -> string): (r: seq<string>)
    ensures |r| == |lines|
  {
    if lines == [] then [] else MapLines(lines[..|lines| - 1], f) + [f(lines[|lines| - 1])]
  }

  lemma {:induction false} MapLinesAt(lines: seq<string>, f: string -> string, i: nat)
    requires i < |lines|
    ensures MapLines(lines, f)[i] == f(lines[i])
  {
    var n := |lines| - 1;
    if i < n {
      MapLinesAt(lines[..n], f, i);
      assert lines[..n][i] == lines[i];
    }
  }

  lemma MapLinesStep(lines: seq<string>, f: string -> string, i: nat)
    requires i < |lines|
    ensures MapLines(lines[..i + 1], f) == MapLines(lines[..i], f) + [f(lines[i])]
  {
    assert lines[..i + 1][..i] == lines[..i];
  }

  /** Every line cleaned, in order. */
  function Cleaned(lines: seq<string>): (r: seq<string>)
    ensures |r| == |lines|
  {
    MapLines(lines, Clean)
  }

  /** Line `i` of the cleaned file is line `i` of the file, cleaned. */
  lemma CleanedLines(lines: seq<string>, i: nat)
    requires i < |lines|
    ensures Cleaned(lines)[i] == Clean(lines[i])
  {
    MapLinesAt(lines, Clean, i);
  }

  /** `s.split(sep)`: the pieces between the separators, at least one. */
  function Split(s: string, sep: char): (r: seq<string>)
    ensures |r| >= 1
    ensures |r| == 1 <==> sep !in s
    ensures forall i :: 0 <= i < |r| ==> sep !in r[i]
    decreases |s|
  {
    if sep !in s then [s]
    else
      var i := IndexOf(s, sep);
      assert sep in s[i..];
      [s[..i]] + Split(s[i + 1..], sep)
  }

  /** `sep.join(pieces)` */
  function Join(pieces: seq<string>, sep: char): string
    requires |pieces| >= 1
  {
    if |pieces| == 1 then pieces[0] else pieces[0] + [sep] + Join(pieces[1..], sep)
  }

  /** Splitting loses nothing: joining the pieces gives the line back. */
  lemma {:induction false} SplitJoin(s: string, sep: char)
    ensures Join(Split(s, sep), sep) == s
    decreases |s|
  {
    if sep in s {
      var i := IndexOf(s, sep);
      SplitJoin(s[i + 1..], sep);
      AroundIndex(s, i);
    }
  }

  /** A sequence is the part before index `i`, element `i` and the rest. */
  lemma AroundIndex<T>(s: seq<T>, i: nat)
    requires i < |s|
    ensures s == s[..i] + [s[i]] + s[i + 1..]
  {
  }

  /** The first piece is the text before the first separator, and the
      second, when there is one, the text between the first and the second. */
  lemma SplitFirstPieces(s: string, sep: char)
    ensures var r := Split(s, sep);
      && (sep !in s ==> r[0] == s)
      && (sep in s ==> r[0] == s[..IndexOf(s, sep)] && r[0] + [sep] + Join(r[1..], sep) == s)
  {
    SplitJoin(s, sep);
    if sep in s {
      var i := IndexOf(s, sep);
      SplitJoin(s[i + 1..], sep);
    }
  }

  // ---------------------------------------------------------------------
  // Python's int() on a string, base 10
  // ---------------------------------------------------------------------

  predicate IsDecimalDigit(c: char) { '0' <= c <= '9' }

  /** The digit part `int()` accepts: decimal digits, with single
      underscores allowed between two digits. */
  predicate IsDigitPart(s: string) {
    && |s| > 0 && IsDecimalDigit(s[0]) && IsDecimalDigit(s[|s| - 1])
    && (forall i :: 0 <= i < |s| ==> IsDecimalDigit(s[i]) || s[i] == '_')
    && NoDoubleUnderscore(s)
  }

  predicate NoDoubleUnderscore(s: string) {
    |s| < 2 || ((s[0] != '_' || s[1] != '_') && NoDoubleUnderscore(s[1..]))
  }

  /** The number the digits of `s` spell, underscores skipped. */
  function DigitValue(s: string): nat {
    if s == [] then 0
    else if IsDecimalDigit(s[|s| - 1]) then 10 * DigitValue(s[..|s| - 1]) + (s[|s| - 1] as int - '0' as int)
    else DigitValue(s[..|s| - 1])
  }

  /** A character `int()` skips around the number (ASCII part): tab, line
      feed, vertical tab, form feed, carriage return and space. Unlike
      `str.split()`, `int()` does not skip the separators 0x1C..0x1F. */
  predicate IsIntSpace(c: char) {
    (9 <= c as int <= 13) || c == ' '
  }

  /** `int(s)`: surrounding whitespace ignored, an optional sign, then digits
      with single underscores between them; `None` for a string of any
      other form, which Python refuses with `ValueError`. No limit on the
      number of digits. */
  function ParseInt(s: string): Option<int> {
    ParseNumber(Strip(s, IsIntSpace))
  }

  /** What `int()` makes of the text between the whitespace: an optional
      sign, then a digit part. */
  function ParseNumber(t: string): Option<int> {
    if |t| > 0 && (t[0] == '+' || t[0] == '-') then
      if IsDigitPart(t[1..]) then
        Some(if t[0] == '-' then -(DigitValue(t[1..]) as int) else DigitValue(t[1..]))
      else None
    else if IsDigitPart(t) then Some(DigitValue(t))
    else None
  }

  /** The decimal rendering of `n`, as `str(n)` gives it. */
  function Decimal(n: nat): (s: string)
    ensures |s| > 0 && forall i :: 0 <= i < |s| ==> IsDecimalDigit(s[i])
  {
    var d := ['0' + (n % 10) as char];
    if n < 10 then d else Decimal(n / 10) + d
  }

  lemma {:induction false} DecimalValue(n: nat)
    ensures DigitValue(Decimal(n)) == n
  {
    var s := Decimal(n);
    if n >= 10 {
      DecimalValue(n / 10);
      assert s[..|s| - 1] == Decimal(n / 10);
    }
  }

  /** `int(str(n))` is `n`. */
  lemma {:induction false} ParseDecimal(n: nat)
    ensures ParseInt(Decimal(n)) == Some(n)
  {
    var s := Decimal(n);
    DecimalValue(n);
    DigitsAreDigitPart(s);
    UnsignedDigits(s);
    assert ParseInt(s) == Some(DigitValue(s));
  }

  /** `int("-" + str(n))` is `-n` and `int("+" + str(n))` is `n`. */
  lemma {:induction false} ParseSignedDecimal(n: nat, sign: char)
    requires sign == '-' || sign == '+'
    ensures ParseInt([sign] + Decimal(n)) == Some(if sign == '-' then -(n as int) else n)
  {
    DecimalDigits(n);
    SignedDigits(sign, Decimal(n), n);
  }

  lemma DecimalDigits(n: nat)
    ensures IsDigitPart(Decimal(n)) && DigitValue(Decimal(n)) == n
  {
    DecimalValue(n);
    DigitsAreDigitPart(Decimal(n));
  }

  lemma UnsignedDigits(s: string)
    requires IsDigitPart(s)
    ensures ParseInt(s) == Some(DigitValue(s))
  {
    NoSpaceUnstripped(s);
  }

  lemma SignedDigits(sign: char, s: string, v: nat)
    requires sign == '-' || sign == '+'
    requires IsDigitPart(s) && DigitValue(s) == v
    ensures ParseInt([sign] + s) == Some(if sign == '-' then -(v as int) else v)
  {
    var t := [sign] + s;
    assert t[1..] == s && t[|t| - 1] == s[|s| - 1];
    NoSpaceUnstripped(t);
  }


  lemma {:induction false} DigitsAreDigitPart(s: string)
    requires |s| > 0 && forall i :: 0 <= i < |s| ==> IsDecimalDigit(s[i])
    ensures IsDigitPart(s)
  {
    if |s| >= 2 {
      DigitsAreDigitPart(s[1..]);
    }
  }

  lemma NoSpaceUnstripped(s: string)
    requires |s| > 0 && !IsIntSpace(s[0]) && !IsIntSpace(s[|s| - 1])
    ensures Strip(s, IsIntSpace) == s
  {
  }

  /** A character that can occur in a string `int()` accepts. */
  predicate IsIntChar(c: char) {
    IsIntSpace(c) || IsDecimalDigit(c) || c == '_' || c == '+' || c == '-'
  }

  /** Every character of a string `int()` accepts is whitespace it skips,
      a sign, a digit or an underscore. */
  lemma ParseIntCharacters(s: string)
    requires ParseInt(s).Some?
    ensures forall i :: 0 <= i < |s| ==> IsIntChar(s[i])
  {
    var l := StripLeading(s, IsIntSpace);
    var t := StripTrailing(l, IsIntSpace);
    var off := |s| - |l|;
    NumberChars(t);
    forall i | 0 <= i < |s|
      ensures IsIntChar(s[i])
    {
      if i >= off {
        assert s[i] == l[i - off];
        if i - off < |t| {
          assert l[i - off] == t[i - off];
        }
      }
    }
  }

  /** The characters of the stripped text `int()` accepts. */
  lemma NumberChars(t: string)
    requires (|t| > 0 && (t[0] == '+' || t[0] == '-') && IsDigitPart(t[1..])) || IsDigitPart(t)
    ensures forall i :: 0 <= i < |t| ==> IsIntChar(t[i])
  {
    if !IsDigitPart(t) {
      forall i | 1 <= i < |t|
        ensures IsIntChar(t[i])
      {
        assert t[i] == t[1..][i - 1];
      }
    }
  }

  /** `int()` refuses a string that holds one of the separators 0x1C..0x1F,
      although `str.split()` counts them as whitespace. */
  lemma SeparatorRefused(s: string, i: nat)
    requires i < |s| && 28 <= s[i] as int <= 31
    ensures ParseInt(s) == None
  {
    if ParseInt(s).Some? {
      ParseIntCharacters(s);
      assert false;
    }
  }

  /** `int()` skips whitespace on both sides of a number. */
  lemma SpacedDecimal(c: char, n: nat)
    requires IsIntSpace(c)
    ensures ParseInt([c] + Decimal(n) + [c]) == Some(n)
  {
    var d := Decimal(n);
    DecimalDigits(n);
    StripAround(c, d, IsIntSpace);
    UnsignedNumber(d);
    assert ParseInt([c] + d + [c]) == ParseNumber(d);
  }

  lemma UnsignedNumber(d: string)
    requires IsDigitPart(d)
    ensures ParseNumber(d) == Some(DigitValue(d))
  {
  }

  /** Stripping removes one stripped character from each side of `d`. */
  lemma StripAround(c: char, d: string, p: char -> bool)
    requires p(c) && |d| > 0 && !p(d[0]) && !p(d[|d| - 1])
    ensures Strip([c] + d + [c], p) == d
  {
    var s := [c] + d + [c];
    assert s[1..] == d + [c];
    assert StripLeading(s, p) == StripLeading(d + [c], p);
    assert (d + [c])[0] == d[0];
    assert (d + [c])[..|d|] == d;
    assert StripTrailing(d + [c], p) == StripTrailing(d, p);
  }

  // ---------------------------------------------------------------------
  // Applying the lines
  // ---------------------------------------------------------------------

  /** What reading the lines gives: the settings, or the `IndexError` that
      a line raised (with its index). */
  datatype Outcome = Loaded(values: map<string, int>) | IndexError(line: nat)

  /** Lines 21-32 for the line `line`, the `i`-th, applied to the settings
      `d`. */
  function Step(d: map<string, int>, line: string, i: nat): Outcome {
    if line == "" then Loaded(d)
    else
      var data := Split(line, '=');
      if data[0] !in d then Loaded(d)
      else if |data| < 2 then IndexError(i)
      else
        match ParseInt(data[1])
        case Some(v) => Loaded(d[data[0] := v])
        case None => Loaded(d)
  }

  /** The defaults after the lines, one after the other; the first line
      that raises ends the reading. */
  function Parse(lines: seq<string>): Outcome {
    if lines == [] then Loaded(Defaults)
    else
      match Parse(lines[..|lines| - 1])
      case IndexError(i) => IndexError(i)
      case Loaded(d) => Step(d, lines[|lines| - 1], |lines| - 1)
  }

  /** The loop of lines 20-32. */
  method ParseLines(lines: seq<string>) returns (r: Outcome)
    ensures r == Parse(lines)
  {
    var settingsData := Defaults;
    for k := 0 to |lines|
      invariant Parse(lines[..k]) == Loaded(settingsData)
    {
      assert lines[..k + 1][..k] == lines[..k];
      var line := lines[k];
      if line != "" {
        var data := Split(line, '=');
        if data[0] !in settingsData {
          // An unknown setting is skipped with a warning.
        } else if |data| == 0 {
          // Never taken: a split gives at least one piece.
        } else {
          if |data| < 2 {
            // `data[1]` raises `IndexError`, which nothing catches.
            RaisedStays(lines, k + 1);
            return IndexError(k);
          }
          var value := ParseInt(data[1]);
          if value.Some? {
            settingsData := settingsData[data[0] := value.value];
          }
        }
      }
    }
    assert lines[..|lines|] == lines;
    r := Loaded(settingsData);
  }

  /** Once a line has raised, the later lines change nothing. */
  lemma {:induction false} RaisedStays(lines: seq<string>, n: nat)
    requires n <= |lines| && Parse(lines[..n]).IndexError?
    ensures Parse(lines) == Parse(lines[..n])
    decreases |lines|
  {
    if n < |lines| {
      var init := lines[..|lines| - 1];
      assert init[..n] == lines[..n];
      RaisedStays(init, n);
    } else {
      assert lines[..n] == lines;
    }
  }

  /** The settings always have exactly the four default keys. */
  lemma {:induction false} ParseKeepsKeys(lines: seq<string>)
    requires Parse(lines).Loaded?
    ensures Parse(lines).values.Keys == Defaults.Keys
  {
    if lines != [] {
      ParseKeepsKeys(lines[..|lines| - 1]);
    }
  }

  /** A line that assigns an integer to `key`. */
  predicate Assigns(line: string, key: string) {
    var data := Split(line, '=');
    line != "" && |data| >= 2 && data[0] == key && ParseInt(data[1]).Some?
  }

  /** The integer such a line assigns: only the piece after the first '='
      and before a second one is read. */
  function Assigned(line: string, key: string): int
    requires Assigns(line, key)
  {
    ParseInt(Split(line, '=')[1]).value
  }

  /** An empty line, an unknown key or a value that is not an integer
      leaves every setting as it was. */
  lemma Skipped(lines: seq<string>, line: string)
    requires Parse(lines).Loaded?
    requires line == "" || Split(line, '=')[0] !in Defaults ||
      (|Split(line, '=')| >= 2 && ParseInt(Split(line, '=')[1]).None?)
    ensures Parse(lines + [line]) == Parse(lines)
  {
    ParseKeepsKeys(lines);
    assert (lines + [line])[..|lines|] == lines;
  }

  /** The pieces of `key=value` when neither part holds '='. */
  lemma SplitAssignment(key: string, value: string)
    requires '=' !in key && '=' !in value
    ensures Split(key + "=" + value, '=') == [key, value]
  {
    var line := key + "=" + value;
    var i := IndexOf(line, '=');
    assert line[|key|] == '=';
    assert i == |key|;
    assert line[..i] == key;
    assert line[i + 1..] == value;
  }

  /** A value that holds one of the separators 0x1C..0x1F is not an integer
      for `int()`, so the line is skipped with a warning and every setting
      keeps its value (for `fps=\x1c5`, fps stays as it was). */
  lemma SeparatorValueSkipped(lines: seq<string>, key: string, value: string, i: nat)
    requires Parse(lines).Loaded? && key in Defaults && '=' !in value
    requires i < |value| && 28 <= value[i] as int <= 31
    ensures Parse(lines + [key + "=" + value]) == Parse(lines)
  {
    var line := key + "=" + value;
    KeyNames(key);
    SplitAssignment(key, value);
    SeparatorRefused(value, i);
    Skipped(lines, line);
  }

  /** Every setting name is non-empty and holds no '='. */
  lemma KeyNames(key: string)
    requires key in Defaults
    ensures key != "" && '=' !in key
  {
    assert key == "screenwidth" || key == "screenheight" || key == "fps" || key == "debug";
  }

  /** A known key without '=' raises `IndexError` at `data[1]`. */
  lemma KeyWithoutValueRaises(lines: seq<string>, line: string)
    requires Parse(lines).Loaded?
    requires line in Defaults && '=' !in line
    ensures Parse(lines + [line]) == IndexError(|lines|)
  {
    var d := Parse(lines).values;
    ParseKeepsKeys(lines);
    assert line in d.Keys;
    KeyNames(line);
    StepWithoutValue(d, line, |lines|);
    ParseAppend(lines, line);
  }

  /** One more line is one more step from the settings so far. */
  lemma ParseAppend(lines: seq<string>, line: string)
    requires Parse(lines).Loaded?
    ensures Parse(lines + [line]) == Step(Parse(lines).values, line, |lines|)
  {
    assert (lines + [line])[..|lines|] == lines;
  }

  /** The step of a line without '=' whose text is a key. */
  lemma StepWithoutValue(d: map<string, int>, line: string, i: nat)
    requires line in d && line != "" && '=' !in line
    ensures Step(d, line, i) == IndexError(i)
  {
    assert Split(line, '=') == [line];
  }

  /** A line that does not assign `key` keeps its value. */
  lemma StepKeeps(d: map<string, int>, line: string, i: nat, key: string)
    requires Step(d, line, i).Loaded? && key in d && !Assigns(line, key)
    ensures key in Step(d, line, i).values && Step(d, line, i).values[key] == d[key]
  {
  }

  /** For repeated keys the last line that assigns an integer wins. */
  lemma {:induction false} LastAssignmentWins(lines: seq<string>, key: string, i: nat)
    requires Parse(lines).Loaded? && key in Defaults
    requires i < |lines| && Assigns(lines[i], key)
    requires forall j :: i < j < |lines| ==> !Assigns(lines[j], key)
    ensures key in Parse(lines).values && Parse(lines).values[key] == Assigned(lines[i], key)
    decreases |lines|
  {
    var init := lines[..|lines| - 1];
    ParseKeepsKeys(lines);
    assert Parse(init).Loaded?;
    ParseKeepsKeys(init);
    if i == |lines| - 1 {
      assert Split(lines[i], '=')[0] in Parse(init).values;
    } else {
      LastAssignmentWins(init, key, i);
      StepKeeps(Parse(init).values, lines[|lines| - 1], |lines| - 1, key);
    }
  }

  /** A setting no line assigns keeps its default. */
  lemma {:induction false} UnassignedKeepsDefault(lines: seq<string>, key: string)
    requires Parse(lines).Loaded? && key in Defaults
    requires forall j :: 0 <= j < |lines| ==> !Assigns(lines[j], key)
    ensures key in Parse(lines).values && Parse(lines).values[key] == Defaults[key]
    decreases |lines|
  {
    ParseKeepsKeys(lines);
    if lines != [] {
      var init := lines[..|lines| - 1];
      assert Parse(init).Loaded?;
      ParseKeepsKeys(init);
      UnassignedKeepsDefault(init, key);
      StepKeeps(Parse(init).values, lines[|lines| - 1], |lines| - 1, key);
    }
  }

  // ---------------------------------------------------------------------
  // The object
  // ---------------------------------------------------------------------

  /** Lines 13-16: each line is cleaned in place. */
  method CleanLines(file: array<string>)
    modifies file
    ensures file[..] == Cleaned(old(file[..]))
  {
    ghost var lines := file[..];
    for i := 0 to file.Length
      invariant file[..] == Cleaned(lines[..i]) + lines[i..]
    {
      ghost var before := file[..];
      MapLinesStep(lines, Clean, i);
      assert before[i] == lines[i];
      var r := CleanLine(file[i]);
      ReplaceNext(before, Cleaned(lines[..i]), lines[i..], r);
      assert lines[i..][1..] == lines[i + 1..];
      file[i] := r;
      assert file[..] == before[i := r];
    }
    assert lines[..file.Length] == lines;
  }

  /** Replacing the first element after `done` in `done + rest`. */
  lemma ReplaceNext<T>(s: seq<T>, done: seq<T>, rest: seq<T>, x: T)
    requires s == done + rest && |rest| > 0
    ensures s[|done| := x] == done + [x] + rest[1..]
  {
  }

  /** The clean-up of lines 14-16 for a single line. */
  method CleanLine(line: string) returns (r: string)
    ensures r == Clean(line)
  {
    r := Strip(line, IsNewline);
    r := RemoveChar(r, '\t');
    r := RemoveChar(r, ' ');
  }

  /** A map with the keys of the defaults is given by its four values. */
  lemma FourSettings(values: map<string, int>)
    requires values.Keys == Defaults.Keys
    ensures values == map["screenwidth" := values["screenwidth"], "screenheight" := values["screenheight"],
      "fps" := values["fps"], "debug" := values["debug"]]
  {
    var m := map["screenwidth" := values["screenwidth"], "screenheight" := values["screenheight"],
      "fps" := values["fps"], "debug" := values["debug"]];
    assert Defaults.Keys == {"screenwidth", "screenheight", "fps", "debug"};
    assert m.Keys == values.Keys;
  }

  class Settings {
    /** The cleaned lines of the file. */
    const file: array<string>
    const widthSetting: int
    const heightSetting: int
    const fpsSetting: int
    const debugSetting: int

    constructor (file: array<string>, values: map<string, int>)
      requires values.Keys == Defaults.Keys
      ensures this.file == file
      ensures widthSetting == values["screenwidth"] && heightSetting == values["screenheight"]
      ensures fpsSetting == values["fps"] && debugSetting == values["debug"]
    {
      this.file := file;
      widthSetting := values["screenwidth"];
      heightSetting := values["screenheight"];
      fpsSetting := values["fps"];
      debugSetting := values["debug"];
    }
  }

  /** `Settings(filename)` for a file holding `lines`: `None` when the
      constructor raises `IndexError`. */
  method Load(lines: seq<string>) returns (r: Option<Settings>)
    ensures r.None? <==> Parse(Cleaned(lines)).IndexError?
    ensures r.Some? ==> fresh(r.value) && fresh(r.value.file) && r.value.file[..] == Cleaned(lines)
    ensures r.Some? ==> Parse(Cleaned(lines)) == Loaded(map[
      "screenwidth" := r.value.widthSetting, "screenheight" := r.value.heightSetting,
      "fps" := r.value.fpsSetting, "debug" := r.value.debugSetting])
  {
    var file := new string[|lines|](i requires 0 <= i < |lines| => lines[i]);
    assert file[..] == lines;
    CleanLines(file);
    var data := ParseLines(file[..]);
    if data.IndexError? {
      return None;
    }
    ParseKeepsKeys(file[..]);
    FourSettings(data.values);
    var s := new Settings(file, data.values);
    return Some(s);
  }
}
