/**
 * The line-oriented lexer (Types/Tokenizer.cs). The input arrives already split into
 * lines, and the two character classes of the runtime are passed in as sets of characters.
 */
module Tokenizer {
  import opened Sequences

  /** A token: its text, the 0-based index of its line, and the index in that line where it starts. */
  datatype Token = Token(value: string, line: nat, column: nat)

  /**
   * The runtime's `char.IsWhiteSpace` and `char.IsLetterOrDigit`, each given by the set of
   * characters it holds for.
   */
  datatype CharClasses = CharClasses(whiteSpace: set<char>, letterOrDigit: set<char>)

  /** A character that extends a run: a letter or digit that is not white space (white space is checked first). */
  predicate IsWordChar(cls: CharClasses, c: char)
  {
    c !in cls.whiteSpace && c in cls.letterOrDigit
  }

  /** The pending run `line[start..i]` as a token, if it is not empty. */
  function Flush(line: string, row: nat, start: nat, i: nat): seq<Token>
    requires start <= i <= |line|
  {
    if start < i then [Token(line[start..i], row, start)] else []
  }

  /**
   * The tokens of `line` from position `i` on, when the run `line[start..i]` is pending:
   * white space ends the run and is emitted only when `preserve` is set, any other
   * non-letter-or-digit ends the run and is emitted on its own, and a letter or digit
   * extends the run; the end of the line ends the run too.
   */
  function Scan(cls: CharClasses, preserve: bool, line: string, row: nat, i: nat, start: nat): seq<Token>
    requires start <= i <= |line|
    decreases |line| - i
  {
    if i == |line| then Flush(line, row, start, i)
    else
      var c := line[i];
      if c in cls.whiteSpace then
        Flush(line, row, start, i) + (if preserve then [Token([c], row, i)] else []) + Scan(cls, preserve, line, row, i + 1, i + 1)
      else if c !in cls.letterOrDigit then
        Flush(line, row, start, i) + [Token([c], row, i)] + Scan(cls, preserve, line, row, i + 1, i + 1)
      else
        Scan(cls, preserve, line, row, i + 1, start)
  }

  /** The tokens of line number `row`. */
  function LineTokens(cls: CharClasses, preserve: bool, line: string, row: nat): seq<Token>
  {
    Scan(cls, preserve, line, row, 0, 0)
  }

  /** The tokens of all lines, line after line. */
  function ReadAll(cls: CharClasses, preserve: bool, lines: seq<string>): seq<Token>
  {
    if lines == [] then []
    else ReadAll(cls, preserve, lines[..|lines| - 1]) + LineTokens(cls, preserve, lines[|lines| - 1], |lines| - 1)
  }

  /** The lexer: one pass per line, collecting the tokens of each line after those of the lines before. */
  method Read(cls: CharClasses, lines: seq<string>, preserve: bool := false) returns (tokens: seq<Token>)
    ensures tokens == ReadAll(cls, preserve, lines)
  {
    tokens := [];
    var row := 0;
    while row < |lines|
      invariant 0 <= row <= |lines|
      invariant tokens == ReadAll(cls, preserve, lines[..row])
    {
      var lineTokens := ReadLine(cls, preserve, lines[row], row);
      tokens := tokens + lineTokens;
      assert lines[..row + 1][..row] == lines[..row];
      row := row + 1;
    }
    assert lines[..row] == lines;
  }

  /**
   * The pass over one line: the pending run of letters and digits is kept in `buffer` and
   * the column where it started in `column`; the run is emitted when a character that is
   * no letter or digit, or the end of the line, ends it.
   */
  method ReadLine(cls: CharClasses, preserve: bool, line: string, row: nat) returns (tokens: seq<Token>)
    ensures tokens == LineTokens(cls, preserve, line, row)
  {
    tokens := [];
    var buffer: string := [];
    var column := 0;
    var index := 0;
    while index < |line|
      invariant 0 <= column <= index <= |line|
      invariant buffer == line[column..index]
      invariant tokens + Scan(cls, preserve, line, row, index, column) == LineTokens(cls, preserve, line, row)
    {
      var next := line[index];
      ScanStep(cls, preserve, line, row, index, column);
      ghost var before := tokens;
      ghost var flushed := Flush(line, row, column, index);
      ghost var rest := Scan(cls, preserve, line, row, index + 1, index + 1);
      if next in cls.whiteSpace || next !in cls.letterOrDigit {
        ghost var single := if next in cls.whiteSpace && !preserve then [] else [Token([next], row, index)];
        if |buffer| > 0 {
          tokens := tokens + [Token(buffer, row, column)];
          buffer := [];
        }
        assert tokens == before + flushed;
        if next in cls.whiteSpace && !preserve {
          column := index + 1;
        } else {
          column := index;
          tokens := tokens + [Token([next], row, column)];
          column := column + 1;
        }
        assert tokens == before + flushed + single;
        Regroup(before, flushed, single, rest);
      } else {
        buffer := buffer + [next];
      }
      index := index + 1;
    }
    if |buffer| > 0 {
      tokens := tokens + [Token(buffer, row, column)];
      buffer := [];
    }
  }

  /** One step of the scan at position `i`, in the three cases of the character there. */
  lemma ScanStep(cls: CharClasses, preserve: bool, line: string, row: nat, i: nat, start: nat)
    requires start <= i < |line|
    ensures var c := line[i];
      var rest := Scan(cls, preserve, line, row, i + 1, i + 1);
      && (c in cls.whiteSpace ==>
            Scan(cls, preserve, line, row, i, start)
              == Flush(line, row, start, i) + (if preserve then [Token([c], row, i)] else []) + rest)
      && (c !in cls.whiteSpace && c !in cls.letterOrDigit ==>
            Scan(cls, preserve, line, row, i, start) == Flush(line, row, start, i) + [Token([c], row, i)] + rest)
      && (IsWordChar(cls, c) ==> Scan(cls, preserve, line, row, i, start) == Scan(cls, preserve, line, row, i + 1, start))
  {
  }

  /** `t` sits on line `row` and its text is the slice of `line` starting at its column. */
  ghost predicate Placed(line: string, row: nat, t: Token)
  {
    && t.line == row && |t.value| > 0
    && t.column + |t.value| <= |line| && line[t.column..t.column + |t.value|] == t.value
  }

  function End(t: Token): nat
  {
    t.column + |t.value|
  }

  /**
   * `t` is a single character that is no letter or digit (white space only when `preserve`
   * is set), or a maximal run of letters and digits: the characters next to it, if any, do
   * not extend the run.
   */
  ghost predicate WellCut(cls: CharClasses, preserve: bool, line: string, t: Token)
    requires End(t) <= |line|
  {
    || (|t.value| == 1 && !IsWordChar(cls, t.value[0]) && (t.value[0] in cls.whiteSpace ==> preserve))
    || (&& (forall k :: 0 <= k < |t.value| ==> IsWordChar(cls, t.value[k]))
        && (t.column == 0 || !IsWordChar(cls, line[t.column - 1]))
        && (End(t) == |line| || !IsWordChar(cls, line[End(t)])))
  }

  /** Every token of `ts` is placed in `line` and starts at or after `start`. */
  ghost predicate AllPlaced(line: string, row: nat, start: nat, ts: seq<Token>)
  {
    forall k :: 0 <= k < |ts| ==> Placed(line, row, ts[k]) && start <= ts[k].column
  }

  /** Each token of `ts` ends at or before the column where the next one starts. */
  ghost predicate Ordered(ts: seq<Token>)
  {
    forall k :: 0 < k < |ts| ==> End(ts[k - 1]) <= ts[k].column
  }

  /** Every token of `ts` lies in `line` and is cut where the rules say. */
  ghost predicate AllWellCut(cls: CharClasses, preserve: bool, line: string, ts: seq<Token>)
  {
    forall k :: 0 <= k < |ts| ==> End(ts[k]) <= |line| && WellCut(cls, preserve, line, ts[k])
  }

  lemma OrderedAppend(a: seq<Token>, b: seq<Token>)
    requires Ordered(a) && Ordered(b)
    requires a != [] && b != [] ==> End(a[|a| - 1]) <= b[0].column
    ensures Ordered(a + b)
  {
    var r := a + b;
    forall k | 0 < k < |r| ensures End(r[k - 1]) <= r[k].column {
      if k == |a| {
        assert r[k - 1] == a[|a| - 1] && r[k] == b[0];
      } else if k < |a| {
        assert r[k - 1] == a[k - 1] && r[k] == a[k];
      } else {
        assert r[k - 1] == b[k - 1 - |a|] && r[k] == b[k - |a|];
      }
    }
  }

  lemma PlacedAppend(line: string, row: nat, start: nat, a: seq<Token>, b: seq<Token>)
    requires AllPlaced(line, row, start, a) && AllPlaced(line, row, start, b)
    ensures AllPlaced(line, row, start, a + b)
  {
    var r := a + b;
    forall k | 0 <= k < |r| ensures Placed(line, row, r[k]) && start <= r[k].column {
      if k < |a| { assert r[k] == a[k]; } else { assert r[k] == b[k - |a|]; }
    }
  }

  lemma PlacedWeaken(line: string, row: nat, start: nat, later: nat, ts: seq<Token>)
    requires start <= later && AllPlaced(line, row, later, ts)
    ensures AllPlaced(line, row, start, ts)
  {
  }

  lemma WellCutAppend(cls: CharClasses, preserve: bool, line: string, a: seq<Token>, b: seq<Token>)
    requires AllWellCut(cls, preserve, line, a) && AllWellCut(cls, preserve, line, b)
    ensures AllWellCut(cls, preserve, line, a + b)
  {
    var r := a + b;
    forall k | 0 <= k < |r| ensures End(r[k]) <= |line| && WellCut(cls, preserve, line, r[k]) {
      if k < |a| { assert r[k] == a[k]; } else { assert r[k] == b[k - |a|]; }
    }
  }

  /** The single character at `i` that ends a run, as a token of its own. */
  lemma CutSingle(cls: CharClasses, preserve: bool, line: string, row: nat, i: nat, start: nat)
    requires start <= i < |line| && !IsWordChar(cls, line[i]) && (line[i] in cls.whiteSpace ==> preserve)
    ensures var single := [Token([line[i]], row, i)];
      AllPlaced(line, row, start, single) && AllWellCut(cls, preserve, line, single)
  {
    assert line[i..i + 1] == [line[i]];
  }

  /** The pending run as a token, ended by the character at `i` or by the end of the line. */
  lemma CutRun(cls: CharClasses, preserve: bool, line: string, row: nat, i: nat, start: nat)
    requires start <= i <= |line| && (i == |line| || !IsWordChar(cls, line[i]))
    requires start == 0 || !IsWordChar(cls, line[start - 1])
    requires forall k :: start <= k < i ==> IsWordChar(cls, line[k])
    ensures var head := Flush(line, row, start, i);
      && AllPlaced(line, row, start, head) && AllWellCut(cls, preserve, line, head)
      && (head != [] ==> End(head[|head| - 1]) == i)
  {
    if start < i {
      var v := line[start..i];
      assert forall k :: 0 <= k < |v| ==> v[k] == line[start + k];
    }
  }

  /**
   * Every token of a scan is non-empty, placed in its line at or after `start`, and cut where
   * the rules say, and each ends before the next begins; this needs the pending run to be
   * one of letters and digits that does not continue one before `start`.
   */
  lemma {:induction false} ScanShape(cls: CharClasses, preserve: bool, line: string, row: nat, i: nat, start: nat)
    requires start <= i <= |line|
    requires start == 0 || !IsWordChar(cls, line[start - 1])
    requires forall k :: start <= k < i ==> IsWordChar(cls, line[k])
    ensures var r := Scan(cls, preserve, line, row, i, start);
      AllPlaced(line, row, start, r) && Ordered(r) && AllWellCut(cls, preserve, line, r)
    decreases |line| - i
  {
    if i == |line| {
      CutRun(cls, preserve, line, row, i, start);
    } else {
      var c := line[i];
      if c in cls.whiteSpace || c !in cls.letterOrDigit {
        var rest := Scan(cls, preserve, line, row, i + 1, i + 1);
        ScanShape(cls, preserve, line, row, i + 1, i + 1);
        PlacedWeaken(line, row, start, i + 1, rest);
        var run := Flush(line, row, start, i);
        CutRun(cls, preserve, line, row, i, start);
        if c in cls.whiteSpace && !preserve {
          ScanShapeJoin(cls, preserve, line, row, i, start, run, [], rest);
        } else {
          CutSingle(cls, preserve, line, row, i, start);
          ScanShapeJoin(cls, preserve, line, row, i, start, run, [Token([c], row, i)], rest);
        }
      } else {
        ScanShape(cls, preserve, line, row, i + 1, start);
      }
    }
  }

  /** Stitches the run, the optional single token at `i` and the rest of the scan together. */
  lemma ScanShapeJoin(cls: CharClasses, preserve: bool, line: string, row: nat, i: nat, start: nat,
                      run: seq<Token>, single: seq<Token>, rest: seq<Token>)
    requires i < |line| && |run| <= 1 && |single| <= 1
    requires run != [] ==> End(run[0]) == i
    requires single != [] ==> single[0].column == i && End(single[0]) == i + 1
    requires forall k :: 0 <= k < |rest| ==> i + 1 <= rest[k].column
    requires AllPlaced(line, row, start, run) && AllPlaced(line, row, start, single) && AllPlaced(line, row, start, rest)
    requires AllWellCut(cls, preserve, line, run) && AllWellCut(cls, preserve, line, single) && AllWellCut(cls, preserve, line, rest)
    requires Ordered(rest)
    ensures AllPlaced(line, row, start, run + single + rest)
    ensures AllWellCut(cls, preserve, line, run + single + rest)
    ensures Ordered(run + single + rest)
  {
    PlacedAppend(line, row, start, run, single);
    PlacedAppend(line, row, start, run + single, rest);
    WellCutAppend(cls, preserve, line, run, single);
    WellCutAppend(cls, preserve, line, run + single, rest);
    OrderedAppend(run, single);
    var head := run + single;
    assert head != [] ==> End(head[|head| - 1]) <= i + 1;
    OrderedAppend(head, rest);
  }

  /** Every character that is no letter or digit becomes a token of its own (white space only when `preserve` is set). */
  lemma {:induction false} ScanCovers(cls: CharClasses, preserve: bool, line: string, row: nat, i: nat, start: nat)
    requires start <= i <= |line|
    ensures forall j :: i <= j < |line| && !IsWordChar(cls, line[j]) && (preserve || line[j] !in cls.whiteSpace) ==>
      Token([line[j]], row, j) in Scan(cls, preserve, line, row, i, start)
    decreases |line| - i
  {
    if i < |line| {
      var c := line[i];
      if c in cls.whiteSpace || c !in cls.letterOrDigit {
        ScanCovers(cls, preserve, line, row, i + 1, i + 1);
      } else {
        ScanCovers(cls, preserve, line, row, i + 1, start);
      }
    }
  }

  /** The texts of the tokens, one after the other. */
  function Values(ts: seq<Token>): string
  {
    if ts == [] then [] else Values(ts[..|ts| - 1]) + ts[|ts| - 1].value
  }

  lemma {:induction false} ValuesAppend(a: seq<Token>, b: seq<Token>)
    ensures Values(a + b) == Values(a) + Values(b)
    decreases |b|
  {
    if b != [] {
      assert (a + b)[..|a + b| - 1] == a + b[..|b| - 1];
      ValuesAppend(a, b[..|b| - 1]);
    } else {
      assert a + b == a;
    }
  }

  /** The characters of `s` that the lexer keeps: all of them with `preserve`, otherwise all but white space. */
  function Visible(cls: CharClasses, preserve: bool, s: string): string
  {
    if s == [] then []
    else (if !preserve && s[0] in cls.whiteSpace then [] else [s[0]]) + Visible(cls, preserve, s[1..])
  }

  lemma {:induction false} VisibleAppend(cls: CharClasses, preserve: bool, a: string, b: string)
    ensures Visible(cls, preserve, a + b) == Visible(cls, preserve, a) + Visible(cls, preserve, b)
    decreases |a|
  {
    if a != [] {
      assert (a + b)[1..] == a[1..] + b;
      VisibleAppend(cls, preserve, a[1..], b);
    } else {
      assert a + b == b;
    }
  }

  lemma {:induction false} VisibleKeeps(cls: CharClasses, preserve: bool, s: string)
    requires preserve || forall k :: 0 <= k < |s| ==> s[k] !in cls.whiteSpace
    ensures Visible(cls, preserve, s) == s
    decreases |s|
  {
    if s != [] {
      VisibleKeeps(cls, preserve, s[1..]);
      assert s == [s[0]] + s[1..];
    }
  }

  /** The texts of a scan's tokens are the line from `start` on, without white space unless `preserve` is set. */
  lemma {:induction false} ScanRebuilds(cls: CharClasses, preserve: bool, line: string, row: nat, i: nat, start: nat)
    requires start <= i <= |line|
    requires forall k :: start <= k < i ==> line[k] !in cls.whiteSpace
    ensures Values(Scan(cls, preserve, line, row, i, start)) == Visible(cls, preserve, line[start..])
    decreases |line| - i
  {
    if i == |line| {
      RunValues(line, row, start, i);
      VisibleKeeps(cls, preserve, line[start..]);
    } else if line[i] in cls.whiteSpace || line[i] !in cls.letterOrDigit {
      ScanRebuilds(cls, preserve, line, row, i + 1, i + 1);
      ScanSeparator(cls, preserve, line, row, i, start);
    } else {
      ScanRebuilds(cls, preserve, line, row, i + 1, start);
      assert Scan(cls, preserve, line, row, i, start) == Scan(cls, preserve, line, row, i + 1, start);
    }
  }

  /** A separator at `i`: the scan from `start` rebuilds the text once the scan after `i` does. */
  lemma ScanSeparator(cls: CharClasses, preserve: bool, line: string, row: nat, i: nat, start: nat)
    requires start <= i < |line| && (line[i] in cls.whiteSpace || line[i] !in cls.letterOrDigit)
    requires forall k :: start <= k < i ==> line[k] !in cls.whiteSpace
    requires Values(Scan(cls, preserve, line, row, i + 1, i + 1)) == Visible(cls, preserve, line[i + 1..])
    ensures Values(Scan(cls, preserve, line, row, i, start)) == Visible(cls, preserve, line[start..])
  {
    var c := line[i];
    RunValues(line, row, start, i);
    ScanStep(cls, preserve, line, row, i, start);
    var single := if c in cls.whiteSpace && !preserve then [] else [Token([c], row, i)];
    RebuildAtSeparator(cls, preserve, line, row, i, start, Flush(line, row, start, i), single,
                       Scan(cls, preserve, line, row, i + 1, i + 1));
  }

  lemma RunValues(line: string, row: nat, start: nat, i: nat)
    requires start <= i <= |line|
    ensures Values(Flush(line, row, start, i)) == line[start..i]
  {
    if start < i {
      assert Values([Token(line[start..i], row, start)]) == Values([]) + line[start..i];
    }
  }

  /** The separator case of `ScanRebuilds`: the run, the separator if kept, and the rest. */
  lemma RebuildAtSeparator(cls: CharClasses, preserve: bool, line: string, row: nat, i: nat, start: nat,
                           run: seq<Token>, single: seq<Token>, rest: seq<Token>)
    requires start <= i < |line|
    requires forall k :: start <= k < i ==> line[k] !in cls.whiteSpace
    requires single == if line[i] in cls.whiteSpace && !preserve then [] else [Token([line[i]], row, i)]
    requires Values(run) == line[start..i]
    requires Values(rest) == Visible(cls, preserve, line[i + 1..])
    ensures Values(run + single + rest) == Visible(cls, preserve, line[start..])
  {
    var c := line[i];
    var pending := line[start..i];
    var after := line[i + 1..];
    SingleValue(cls, preserve, c, row, i, single);
    ValuesAppend3(run, single, rest);
    VisibleKeeps(cls, preserve, pending);
    VisibleAppend3(cls, preserve, pending, c, after);
    assert line[start..] == pending + ([c] + after);
  }

  lemma ValuesAppend3(a: seq<Token>, b: seq<Token>, c: seq<Token>)
    ensures Values(a + b + c) == Values(a) + Values(b) + Values(c)
  {
    ValuesAppend(a + b, c);
    ValuesAppend(a, b);
  }

  lemma VisibleAppend3(cls: CharClasses, preserve: bool, a: string, c: char, b: string)
    ensures Visible(cls, preserve, a + ([c] + b)) == Visible(cls, preserve, a) + Visible(cls, preserve, [c]) + Visible(cls, preserve, b)
  {
    VisibleAppend(cls, preserve, a, [c] + b);
    VisibleAppend(cls, preserve, [c], b);
  }

  lemma SingleValue(cls: CharClasses, preserve: bool, c: char, row: nat, i: nat, single: seq<Token>)
    requires single == if c in cls.whiteSpace && !preserve then [] else [Token([c], row, i)]
    ensures Values(single) == Visible(cls, preserve, [c])
  {
    assert [c][1..] == [];
    if single != [] {
      assert Values(single) == Values([]) + [c];
    }
  }

  /**
   * The tokens of one line: each is placed in the line, is a single separator or a maximal
   * run of letters and digits, and ends before the next begins; their texts put together are
   * the line (without its white space unless `preserve` is set); and every separator that is
   * kept appears as a token of its own.
   */
  lemma LineShape(cls: CharClasses, preserve: bool, line: string, row: nat)
    ensures var r := LineTokens(cls, preserve, line, row);
      && AllPlaced(line, row, 0, r) && Ordered(r) && AllWellCut(cls, preserve, line, r)
      && Values(r) == Visible(cls, preserve, line)
      && (forall j :: 0 <= j < |line| && !IsWordChar(cls, line[j]) && (preserve || line[j] !in cls.whiteSpace) ==>
            Token([line[j]], row, j) in r)
  {
    ScanShape(cls, preserve, line, row, 0, 0);
    ScanRebuilds(cls, preserve, line, row, 0, 0);
    ScanCovers(cls, preserve, line, row, 0, 0);
    assert line[0..] == line;
  }

  /** Every token of `ts` is placed in the line its `line` field names. */
  ghost predicate InLines(lines: seq<string>, ts: seq<Token>)
  {
    forall k :: 0 <= k < |ts| ==> ts[k].line < |lines| && Placed(lines[ts[k].line], ts[k].line, ts[k])
  }

  /** Tokens come line by line, and within a line from left to right without overlapping. */
  ghost predicate InReadingOrder(ts: seq<Token>)
  {
    forall k :: 0 < k < |ts| ==>
      ts[k - 1].line < ts[k].line || (ts[k - 1].line == ts[k].line && End(ts[k - 1]) <= ts[k].column)
  }

  /** The texts the lexer keeps, line after line. */
  function VisibleLines(cls: CharClasses, preserve: bool, lines: seq<string>): string
  {
    if lines == [] then []
    else VisibleLines(cls, preserve, lines[..|lines| - 1]) + Visible(cls, preserve, lines[|lines| - 1])
  }

  /**
   * The whole output: every token is placed in its line, the tokens are in reading order,
   * and their texts put together are the lines without their white space (or with it, when
   * `preserve` is set).
   */
  lemma {:induction false} ReadAllShape(cls: CharClasses, preserve: bool, lines: seq<string>)
    ensures var r := ReadAll(cls, preserve, lines);
      InLines(lines, r) && InReadingOrder(r) && Values(r) == VisibleLines(cls, preserve, lines)
    decreases |lines|
  {
    if lines != [] {
      var n := |lines| - 1;
      var prefix := lines[..n];
      ReadAllShape(cls, preserve, prefix);
      var head := ReadAll(cls, preserve, prefix);
      var tail := LineTokens(cls, preserve, lines[n], n);
      LineShape(cls, preserve, lines[n], n);
      InLinesJoin(lines, prefix, head, tail);
      ReadingOrderJoin(head, tail, n);
      ValuesAppend(head, tail);
    }
  }

  /** Without `preserve` the lexer keeps no white space: no character it keeps is white space. */
  lemma {:induction false} VisibleDropsWhiteSpace(cls: CharClasses, s: string)
    ensures forall c :: c in Visible(cls, false, s) ==> c !in cls.whiteSpace
    decreases |s|
  {
    if s != [] {
      VisibleDropsWhiteSpace(cls, s[1..]);
    }
  }

  lemma {:induction false} VisibleLinesDropWhiteSpace(cls: CharClasses, lines: seq<string>)
    ensures forall c :: c in VisibleLines(cls, false, lines) ==> c !in cls.whiteSpace
    decreases |lines|
  {
    if lines != [] {
      VisibleLinesDropWhiteSpace(cls, lines[..|lines| - 1]);
      VisibleDropsWhiteSpace(cls, lines[|lines| - 1]);
    }
  }

  /**
   * The lexer called with its default, `preserve` unset: the token texts put together are
   * the input without its white space, so no token holds a white-space character.
   */
  method ReadDefault(cls: CharClasses, lines: seq<string>) returns (tokens: seq<Token>)
    ensures tokens == ReadAll(cls, false, lines)
    ensures Values(tokens) == VisibleLines(cls, false, lines)
    ensures forall c :: c in Values(tokens) ==> c !in cls.whiteSpace
  {
    tokens := Read(cls, lines);
    ReadAllShape(cls, false, lines);
    VisibleLinesDropWhiteSpace(cls, lines);
  }

  lemma InLinesJoin(lines: seq<string>, prefix: seq<string>, head: seq<Token>, tail: seq<Token>)
    requires lines != [] && prefix == lines[..|lines| - 1]
    requires InLines(prefix, head)
    requires AllPlaced(lines[|lines| - 1], |lines| - 1, 0, tail)
    ensures InLines(lines, head + tail)
    ensures forall k :: 0 <= k < |head| ==> head[k].line < |lines| - 1
  {
    var r := head + tail;
    forall k | 0 <= k < |r| ensures r[k].line < |lines| && Placed(lines[r[k].line], r[k].line, r[k]) {
      if k < |head| {
        assert r[k] == head[k] && prefix[head[k].line] == lines[head[k].line];
      } else {
        assert r[k] == tail[k - |head|];
      }
    }
  }

  lemma ReadingOrderJoin(head: seq<Token>, tail: seq<Token>, row: nat)
    requires InReadingOrder(head) && Ordered(tail)
    requires forall k :: 0 <= k < |head| ==> head[k].line < row
    requires forall k :: 0 <= k < |tail| ==> tail[k].line == row
    ensures InReadingOrder(head + tail)
  {
    var r := head + tail;
    forall k | 0 < k < |r|
      ensures r[k - 1].line < r[k].line || (r[k - 1].line == r[k].line && End(r[k - 1]) <= r[k].column)
    {
      if k < |head| {
        assert r[k - 1] == head[k - 1] && r[k] == head[k];
      } else if k == |head| {
        assert r[k - 1] == head[k - 1] && r[k] == tail[0];
      } else {
        assert r[k - 1] == tail[k - 1 - |head|] && r[k] == tail[k - |head|];
      }
    }
  }
}
