/**
 * The "tasks" setting of the status-table widget, turned into row labels.
 *
 * The host hands the widget either an array of labels or one multi-line
 * string. An array is copied element by element; a string is split into
 * lines on "\n" or "\r\n", every line is trimmed and blank lines are
 * dropped; any other value yields no labels at all.
 */
module SeedRows {

  /** The value the host passes as the "tasks" setting. */
  datatype SeedInput =
    | ArrayInput(items: seq<string>)
    | StringInput(text: string)
    | OtherInput

  /**
   * The code points String.prototype.trim removes: ECMAScript's WhiteSpace
   * (tab, vertical tab, form feed, the byte order mark and every space
   * separator of Unicode 15) and its LineTerminators (LF, CR, LS, PS).
   */
  predicate IsWhitespace(c: char)
  {
    || c == '\t' || c == '\n' || c == '\U{000B}' || c == '\U{000C}' || c == '\r'
    || c == ' ' || c == '\U{00A0}' || c == '\U{1680}'
    || ('\U{2000}' <= c <= '\U{200A}')
    || c == '\U{2028}' || c == '\U{2029}' || c == '\U{202F}' || c == '\U{205F}'
    || c == '\U{3000}' || c == '\U{FEFF}'
  }

  /** A string with no whitespace at either end (the empty string included). */
  predicate IsTrimmed(s: string)
  {
    s == [] || (!IsWhitespace(s[0]) && !IsWhitespace(s[|s| - 1]))
  }

  /** `s` with its leading whitespace removed. */
  function TrimStart(s: string): (r: string)
    ensures |r| <= |s| && r == s[|s| - |r|..]
    ensures forall k :: 0 <= k < |s| - |r| ==> IsWhitespace(s[k])
    ensures r == [] || !IsWhitespace(r[0])
  {
    if |s| > 0 && IsWhitespace(s[0]) then TrimStart(s[1..]) else s
  }

  /** `s` with its trailing whitespace removed. */
  function TrimEnd(s: string): (r: string)
    ensures |r| <= |s| && r == s[..|r|]
    ensures forall k :: |r| <= k < |s| ==> IsWhitespace(s[k])
    ensures r == [] || !IsWhitespace(r[|r| - 1])
  {
    if |s| > 0 && IsWhitespace(s[|s| - 1]) then TrimEnd(s[..|s| - 1]) else s
  }

  /** String.prototype.trim: a middle slice of `s` with no whitespace at either end. */
  function Trim(s: string): (r: string)
    ensures IsTrimmed(r)
    ensures IsTrimmed(s) ==> r == s
  {
    TrimEnd(TrimStart(s))
  }

  /** Trimming only removes characters. */
  lemma TrimKeepsChars(s: string)
    ensures forall c :: c in Trim(s) ==> c in s
  {
    var t := TrimStart(s);
    var r := TrimEnd(t);
    forall c | c in r ensures c in s {
      var k :| 0 <= k < |r| && r[k] == c;
      assert t[k] == c;
      assert s[|s| - |t| + k] == c;
    }
  }

  /** Trimming leaves nothing exactly when every character is whitespace. */
  lemma TrimBlank(s: string)
    ensures Trim(s) == [] <==> forall k :: 0 <= k < |s| ==> IsWhitespace(s[k])
  {
    var t := TrimStart(s);
    assert t != [] ==> t[0] == s[|s| - |t|];
  }

  /** The number of occurrences of `c` in `s`. */
  function Count(s: string, c: char): nat
  {
    if s == [] then 0 else (if s[0] == c then 1 else 0) + Count(s[1..], c)
  }

  /**
   * String.prototype.split with the pattern /\r?\n/: the pieces between
   * separators, where a separator is "\n" or "\r\n". There is always one
   * more piece than there are line feeds.
   */
  function SplitLines(s: string): (r: seq<string>)
    ensures |r| == Count(s, '\n') + 1
    ensures forall k :: 0 <= k < |r| ==> '\n' !in r[k]
  {
    if s == [] then [""]
    else if s[0] == '\n' then [""] + SplitLines(s[1..])
    else if s[0] == '\r' && |s| >= 2 && s[1] == '\n' then
      assert Count(s, '\n') == Count(s[2..], '\n') + 1 by {
        assert s[1..][1..] == s[2..];
      }
      [""] + SplitLines(s[2..])
    else
      var rest := SplitLines(s[1..]);
      [[s[0]] + rest[0]] + rest[1..]
  }

  /** Array.prototype.join with "\n". */
  function JoinLines(lines: seq<string>): string
  {
    if lines == [] then ""
    else if |lines| == 1 then lines[0]
    else lines[0] + "\n" + JoinLines(lines[1..])
  }

  /** `s` with every "\r\n" replaced by "\n". */
  function NormalizeNewlines(s: string): string
  {
    if s == [] then ""
    else if s[0] == '\r' && |s| >= 2 && s[1] == '\n' then "\n" + NormalizeNewlines(s[2..])
    else [s[0]] + NormalizeNewlines(s[1..])
  }

  /** A piece SplitLines can give back unchanged: no line feed, no final carriage return. */
  predicate IsLine(s: string)
  {
    '\n' !in s && (s == [] || s[|s| - 1] != '\r')
  }

  /** Array.prototype.filter(Boolean) on strings: the non-empty ones, in order. */
  function DropEmpty(xs: seq<string>): (r: seq<string>)
    ensures |r| <= |xs|
    ensures forall k :: 0 <= k < |r| ==> r[k] != "" && r[k] in xs
  {
    if xs == [] then []
    else if xs[0] == "" then DropEmpty(xs[1..])
    else [xs[0]] + DropEmpty(xs[1..])
  }

  /** Array.prototype.map with trim. */
  function TrimEach(lines: seq<string>): (r: seq<string>)
    ensures |r| == |lines|
    ensures forall k :: 0 <= k < |r| ==> r[k] == Trim(lines[k])
  {
    if lines == [] then [] else [Trim(lines[0])] + TrimEach(lines[1..])
  }

  /** Trimming lines without line feeds gives trimmed lines without line feeds. */
  lemma TrimmedLines(lines: seq<string>)
    requires forall k :: 0 <= k < |lines| ==> '\n' !in lines[k]
    ensures forall x :: x in TrimEach(lines) ==> IsTrimmed(x) && '\n' !in x
  {
    var r := TrimEach(lines);
    forall x | x in r ensures IsTrimmed(x) && '\n' !in x {
      var k :| 0 <= k < |r| && r[k] == x;
      TrimKeepsChars(lines[k]);
    }
  }

  /** Trimming a list works line by line: the first line's trim, then the rest's. */
  lemma TrimEachCons(line: string, rest: seq<string>)
    ensures TrimEach([line] + rest) == [Trim(line)] + TrimEach(rest)
  {
    assert ([line] + rest)[1..] == rest;
  }

  /** `text.split(/\r?\n/).map(s => s.trim()).filter(Boolean)` */
  function ParseText(text: string): (r: seq<string>)
    ensures forall k :: 0 <= k < |r| ==> r[k] != "" && IsTrimmed(r[k]) && '\n' !in r[k]
    ensures |r| <= Count(text, '\n') + 1
  {
    var lines := SplitLines(text);
    var trimmed := TrimEach(lines);
    TrimmedLines(lines);
    DropEmpty(trimmed)
  }

  /** parseSeedRows: the row labels a "tasks" setting stands for. */
  function ParseSeedRows(input: SeedInput): (r: seq<string>)
    ensures input.ArrayInput? ==> |r| == |input.items| && forall i :: 0 <= i < |r| ==> r[i] == input.items[i]
    ensures input.OtherInput? ==> r == []
    ensures input.StringInput? ==> forall k :: 0 <= k < |r| ==> r[k] != "" && IsTrimmed(r[k]) && '\n' !in r[k]
    ensures input.StringInput? ==> |r| <= Count(input.text, '\n') + 1
  {
    match input
    case ArrayInput(items) => items
    case StringInput(text) => ParseText(text)
    case OtherInput => []
  }

  // ----- Splitting and joining are inverse to each other -----

  /** Joining a split gives back the text, up to "\r\n" becoming "\n". */
  lemma {:induction false} JoinSplitLines(s: string)
    ensures JoinLines(SplitLines(s)) == NormalizeNewlines(s)
    decreases |s|
  {
    if s == [] {
    } else if s[0] == '\n' {
      var rest := SplitLines(s[1..]);
      JoinSplitLines(s[1..]);
      assert ([""] + rest)[1..] == rest;
    } else if s[0] == '\r' && |s| >= 2 && s[1] == '\n' {
      var rest := SplitLines(s[2..]);
      JoinSplitLines(s[2..]);
      assert ([""] + rest)[1..] == rest;
    } else {
      var rest := SplitLines(s[1..]);
      JoinSplitLines(s[1..]);
      JoinConsChar(s[0], rest);
    }
  }

  /** Prepending a character to the first line prepends it to the joined text. */
  lemma {:induction false} JoinConsChar(c: char, lines: seq<string>)
    requires |lines| >= 1
    ensures JoinLines([[c] + lines[0]] + lines[1..]) == [c] + JoinLines(lines)
  {
    var xs := [[c] + lines[0]] + lines[1..];
    assert xs[1..] == lines[1..];
  }

  /** A single line splits to itself. */
  lemma {:induction false} SplitSingleLine(x: string)
    requires '\n' !in x
    ensures SplitLines(x) == [x]
    decreases |x|
  {
    if x != [] {
      assert x[0] != '\n';
      SplitSingleLine(x[1..]);
      assert [x[0]] + x[1..] == x;
    }
  }

  /** A line followed by "\n" splits off as the first piece. */
  lemma {:induction false} SplitLeadingLine(x: string, rest: string)
    requires IsLine(x)
    ensures SplitLines(x + "\n" + rest) == [x] + SplitLines(rest)
    decreases |x|
  {
    var s := x + "\n" + rest;
    if x == [] {
      assert s == "\n" + rest;
      assert s[1..] == rest;
    } else {
      assert s[0] == x[0] != '\n';
      assert s[1] != '\n' || x[0] != '\r' by {
        if |x| == 1 {
          assert x[|x| - 1] == x[0];
        } else {
          assert s[1] == x[1];
          assert x[1] in x;
        }
      }
      assert IsLine(x[1..]) by {
        if x[1..] != [] {
          assert x[1..][|x[1..]| - 1] == x[|x| - 1];
        }
        assert forall c :: c in x[1..] ==> c in x;
      }
      SplitLeadingLine(x[1..], rest);
      assert s[1..] == x[1..] + "\n" + rest;
      assert [x[0]] + x[1..] == x;
    }
  }

  /** Splitting the join of lines gives the lines back. */
  lemma {:induction false} SplitJoinLines(lines: seq<string>)
    requires |lines| >= 1
    requires forall k :: 0 <= k < |lines| ==> IsLine(lines[k])
    ensures SplitLines(JoinLines(lines)) == lines
    decreases |lines|
  {
    if |lines| == 1 {
      SplitSingleLine(lines[0]);
    } else {
      SplitJoinLines(lines[1..]);
      SplitLeadingLine(lines[0], JoinLines(lines[1..]));
      assert [lines[0]] + lines[1..] == lines;
    }
  }

  // ----- Filtering -----

  /** DropEmpty works piece by piece: it distributes over concatenation. */
  lemma {:induction false} DropEmptyAppend(xs: seq<string>, ys: seq<string>)
    ensures DropEmpty(xs + ys) == DropEmpty(xs) + DropEmpty(ys)
    decreases |xs|
  {
    if xs == [] {
      assert xs + ys == ys;
    } else {
      DropEmptyAppend(xs[1..], ys);
      assert (xs + ys)[1..] == xs[1..] + ys;
    }
  }

  /** DropEmpty keeps a list with no empty entries as it is. */
  lemma {:induction false} DropEmptyNoEmpty(xs: seq<string>)
    requires forall k :: 0 <= k < |xs| ==> xs[k] != ""
    ensures DropEmpty(xs) == xs
    decreases |xs|
  {
    if xs != [] {
      DropEmptyNoEmpty(xs[1..]);
      assert [xs[0]] + xs[1..] == xs;
    }
  }

  /** DropEmpty removes exactly the empty entries: none survive and only empty ones vanish. */
  lemma {:induction false} DropEmptyCount(xs: seq<string>)
    ensures |DropEmpty(xs)| + Empties(xs) == |xs|
    decreases |xs|
  {
    if xs != [] {
      DropEmptyCount(xs[1..]);
    }
  }

  /** The number of empty entries of `xs`. */
  function Empties(xs: seq<string>): nat
  {
    if xs == [] then 0 else (if xs[0] == "" then 1 else 0) + Empties(xs[1..])
  }

  // ----- Properties of the parse -----

  /** Every parsed label is a line: parsing never leaves a separator inside a label. */
  lemma ParsedLabelsAreLines(text: string)
    ensures forall k :: 0 <= k < |ParseText(text)| ==> IsLine(ParseText(text)[k])
  {
    var r := ParseText(text);
    forall k | 0 <= k < |r| ensures IsLine(r[k]) {
      assert !IsWhitespace(r[k][|r[k]| - 1]);
    }
  }

  /**
   * Parsing is idempotent on its own output: the labels, written back one
   * per line, parse to the same labels.
   */
  lemma ParseTextRoundTrip(text: string)
    ensures ParseText(JoinLines(ParseText(text))) == ParseText(text)
  {
    var xs := ParseText(text);
    if xs == [] {
      assert SplitLines("") == [""];
      assert Trim("") == "";
    } else {
      ParsedLabelsAreLines(text);
      SplitJoinLines(xs);
      assert TrimEach(xs) == xs;
      DropEmptyNoEmpty(xs);
    }
  }

  /** A string with no line break yields at most one label: itself, trimmed, unless blank. */
  lemma ParseSingleLine(text: string)
    requires '\n' !in text
    ensures ParseText(text) == if Trim(text) == "" then [] else [Trim(text)]
  {
    SplitSingleLine(text);
    assert TrimEach([text]) == [Trim(text)];
  }

  /** A line ended by "\r\n" splits off like one ended by "\n": the '\r' is part of the separator. */
  lemma {:induction false} SplitLeadingCRLF(x: string, rest: string)
    requires '\n' !in x
    ensures SplitLines(x + "\r\n" + rest) == [x] + SplitLines(rest)
    decreases |x|
  {
    var s := x + "\r\n" + rest;
    if x == [] {
      assert s == "\r\n" + rest;
      assert s[2..] == rest;
    } else {
      assert s[0] == x[0] != '\n';
      assert s[1] != '\n' by {
        if |x| == 1 {
          assert s[1] == '\r';
        } else {
          assert s[1] == x[1];
          assert x[1] in x;
        }
      }
      assert '\n' !in x[1..] by {
        assert forall c :: c in x[1..] ==> c in x;
      }
      SplitLeadingCRLF(x[1..], rest);
      assert s[1..] == x[1..] + "\r\n" + rest;
      assert [x[0]] + x[1..] == x;
    }
  }

  /** Whitespace at the very end never survives `trim()`. */
  lemma {:induction false} TrimDropsFinalWs(x: string, c: char)
    requires IsWhitespace(c)
    ensures Trim(x + [c]) == Trim(x)
    decreases |x|
  {
    if x == [] {
      assert TrimStart([c]) == TrimStart([c][1..]) == [];
    } else if IsWhitespace(x[0]) {
      assert (x + [c])[1..] == x[1..] + [c];
      TrimDropsFinalWs(x[1..], c);
    } else {
      assert TrimStart(x + [c]) == x + [c];
      assert (x + [c])[..|x + [c]| - 1] == x;
    }
  }

  /**
   * Labels of a text are the labels of its lines, in order: a line (ended
   * by "\n" or "\r\n"), and the rest parse to the line's label (if any)
   * followed by the rest's.
   */
  lemma ParseLeadingLine(line: string, rest: string)
    requires '\n' !in line
    ensures ParseText(line + "\n" + rest)
         == (if Trim(line) == "" then [] else [Trim(line)]) + ParseText(rest)
  {
    var body := line;
    if IsLine(line) {
      SplitLeadingLine(line, rest);
    } else {
      body := line[..|line| - 1];
      assert line == body + "\r";
      assert line + "\n" + rest == body + "\r\n" + rest;
      assert '\n' !in body by {
        assert forall c :: c in body ==> c in line;
      }
      SplitLeadingCRLF(body, rest);
      TrimDropsFinalWs(body, '\r');
    }
    assert SplitLines(line + "\n" + rest) == [body] + SplitLines(rest);
    assert Trim(body) == Trim(line);
    TrimEachCons(body, SplitLines(rest));
    DropEmptyAppend([Trim(line)], TrimEach(SplitLines(rest)));
    assert DropEmpty([Trim(line)]) == if Trim(line) == "" then [] else [Trim(line)];
  }
}
