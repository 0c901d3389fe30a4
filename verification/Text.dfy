/** Strings as the source reads and writes them: lines, fields, trimming and decimal numbers. */
module Text {
  import opened Prelude

  // ----- cutting at a separator

  function IndexOf(s: string, c: char): (n: nat)
    ensures n <= |s| && c !in s[..n] && (n < |s| ==> s[n] == c)
  {
    if s == [] || s[0] == c then 0 else
      var n := IndexOf(s[1..], c);
      assert s[..n + 1] == [s[0]] + s[1..][..n];
      n + 1
  }

  lemma IndexOfIs(s: string, c: char, n: nat)
    requires n <= |s| && c !in s[..n] && (n < |s| ==> s[n] == c)
    ensures IndexOf(s, c) == n
  {
    var m := IndexOf(s, c);
    assert forall k :: 0 <= k < n ==> s[..n][k] != c;
    assert forall k :: 0 <= k < m ==> s[..m][k] != c;
  }

  function Split(s: string, c: char): (parts: seq<string>)
    ensures |parts| >= 1
    ensures forall p <- parts :: c !in p && forall x <- p :: x in s
    decreases |s|
  {
    var n := IndexOf(s, c);
    if n == |s| then assert s[..n] == s; [s] else [s[..n]] + Split(s[n + 1..], c)
  }

  function Join(parts: seq<string>, c: char): string {
    if parts == [] then [] else if |parts| == 1 then parts[0] else parts[0] + [c] + Join(parts[1..], c)
  }

  lemma CutAtFirst(a: string, c: char, b: string)
    requires c !in a
    ensures IndexOf(a + [c] + b, c) == |a|
    ensures (a + [c] + b)[..|a|] == a && (a + [c] + b)[|a| + 1..] == b
  {
    var s := a + [c] + b;
    assert s[..|a|] == a;
    IndexOfIs(s, c, |a|);
  }

  lemma SplitStep(a: string, c: char, b: string)
    requires c !in a
    ensures Split(a + [c] + b, c) == [a] + Split(b, c)
  {
    CutAtFirst(a, c, b);
  }

  lemma {:induction false} SplitOfJoin(parts: seq<string>, c: char)
    requires parts != [] && forall p <- parts :: c !in p
    ensures Split(Join(parts, c), c) == parts
  {
    assert parts[0] in parts;
    if |parts| == 1 {
      IndexOfIs(parts[0], c, |parts[0]|);
      assert parts == [parts[0]];
    } else {
      hide Split;
      assert forall p <- parts[1..] :: p in parts;
      SplitOfJoin(parts[1..], c);
      SplitStep(parts[0], c, Join(parts[1..], c));
      assert parts == [parts[0]] + parts[1..];
    }
  }

  // ----- lines

  function DropCr(s: string): string {
    if s != [] && s[|s| - 1] == '\r' then s[..|s| - 1] else s
  }

  /** Rust's `str::lines`: a final newline ends the last line, and `\r` goes only before a newline. */
  function Lines(s: string): (lines: seq<string>)
    ensures forall l <- lines :: '\n' !in l
    decreases |s|
  {
    if s == [] then [] else
      var n := IndexOf(s, '\n');
      if n == |s| then assert s[..n] == s; [s] else [DropCr(s[..n])] + Lines(s[n + 1..])
  }

  predicate CleanLine(l: string) { '\n' !in l && DropCr(l) == l }

  lemma {:induction false} LinesOfJoin(rows: seq<string>)
    requires rows != [] && rows[|rows| - 1] != [] && forall l <- rows :: CleanLine(l)
    ensures Lines(Join(rows, '\n')) == rows
  {
    assert rows[0] in rows && CleanLine(rows[0]);
    if |rows| == 1 {
      IndexOfIs(rows[0], '\n', |rows[0]|);
      assert rows == [rows[0]];
    } else {
      CutAtFirst(rows[0], '\n', Join(rows[1..], '\n'));
      assert forall l <- rows[1..] :: l in rows;
      LinesOfJoin(rows[1..]);
      assert rows == [rows[0]] + rows[1..];
    }
  }

  /** Each line followed by a newline. */
  function EndLines(lines: seq<string>): string {
    if lines == [] then [] else lines[0] + ['\n'] + EndLines(lines[1..])
  }

  lemma {:induction false} LinesOfEndLines(lines: seq<string>)
    requires forall l <- lines :: CleanLine(l)
    ensures Lines(EndLines(lines)) == lines
  {
    hide Lines, CleanLine;
    if lines == [] {
      NoLines();
    } else {
      assert lines[0] in lines;
      assert forall l <- lines[1..] :: l in lines;
      LinesOfEndLines(lines[1..]);
      LinesStep(lines[0], EndLines(lines[1..]));
      assert lines == [lines[0]] + lines[1..];
    }
  }

  lemma NoLines()
    ensures Lines([]) == []
  {
  }

  lemma LinesStep(l: string, rest: string)
    requires CleanLine(l)
    ensures Lines(l + ['\n'] + rest) == [l] + Lines(rest)
  {
    CutAtFirst(l, '\n', rest);
    var s := l + ['\n'] + rest;
    assert s[..|l|] == l && s[|l| + 1..] == rest;
  }

  lemma {:induction false} EndLinesAppend(lines: seq<string>, l: string)
    ensures EndLines(lines + [l]) == EndLines(lines) + l + ['\n']
  {
    if lines == [] {
      assert [l][1..] == [];
    } else {
      EndLinesAppend(lines[1..], l);
      assert (lines + [l])[1..] == lines[1..] + [l];
    }
  }

  // ----- trimming

  /** The Unicode White_Space property, which `trim` and `trim_end` use. */
  predicate IsWhitespace(c: char) {
    || '\t' <= c <= '\r' || c == ' ' || c == '\U{0085}' || c == '\U{00A0}' || c == '\U{1680}'
    || '\U{2000}' <= c <= '\U{200A}' || c == '\U{2028}' || c == '\U{2029}' || c == '\U{202F}'
    || c == '\U{205F}' || c == '\U{3000}'
  }

  /** By code point: the controls from tab to carriage return and the blanks of Unicode. */
  lemma WhitespaceByCode(c: char)
    ensures var code := c as int;
            IsWhitespace(c) <==>
              (9 <= code <= 13 || 8192 <= code <= 8202 || code in {32, 133, 160, 5760, 8232, 8233, 8239, 8287, 12288})
  {
  }

  function TrimEnd(s: string): (t: string)
    ensures t <= s
    ensures t != [] ==> !IsWhitespace(t[|t| - 1])
    ensures forall i :: |t| <= i < |s| ==> IsWhitespace(s[i])
  {
    if s != [] && IsWhitespace(s[|s| - 1]) then TrimEnd(s[..|s| - 1]) else s
  }

  function TrimStart(s: string): (t: string)
    ensures forall c <- t :: c in s
    ensures t == [] <==> forall c <- s :: IsWhitespace(c)
  {
    if s != [] && IsWhitespace(s[0]) then TrimStart(s[1..]) else s
  }

  function Trim(s: string): string { TrimStart(TrimEnd(s)) }

  predicate IsBlank(s: string) { Trim(s) == [] }

  lemma BlankMeansWhitespace(s: string)
    ensures IsBlank(s) <==> forall c <- s :: IsWhitespace(c)
  {
    var t := TrimEnd(s);
    assert s == t + s[|t|..];
    assert t != [] ==> t[|t| - 1] in t && t[|t| - 1] in s;
  }

  /** By ASCII code: a capital or small letter, a digit, an underscore or a hyphen. */
  predicate HasWordCode(c: char) {
    var code := c as int;
    65 <= code <= 90 || 97 <= code <= 122 || 48 <= code <= 57 || code == 95 || code == 45
  }

  // ----- decimal numbers

  predicate IsDigit(c: char) { '0' <= c <= '9' }

  function DigitChar(d: nat): (c: char)
    requires d < 10
    ensures IsDigit(c) && c as int - '0' as int == d
  {
    '0' + d as char
  }

  function PrintNat(n: nat): (s: string)
    ensures s != [] && forall c <- s :: IsDigit(c)
  {
    if n < 10 then [DigitChar(n)] else PrintNat(n / 10) + [DigitChar(n % 10)]
  }

  /** The number written by a row of digits. */
  function DigitsValue(s: string): nat
    requires forall c <- s :: IsDigit(c)
  {
    if s == [] then 0 else
      assert IsDigit(s[|s| - 1]);
      10 * DigitsValue(s[..|s| - 1]) + (s[|s| - 1] as int - '0' as int)
  }

  /** Rust's unsigned `parse`: an optional '+', then digits, rejected above `max`. */
  function ParseUnsigned(raw: string, max: nat): (r: Option<nat>)
    ensures r.Some? ==> r.value <= max
  {
    var digits := if raw != [] && raw[0] == '+' then raw[1..] else raw;
    if digits == [] || (exists c <- digits :: !IsDigit(c)) then None
    else if DigitsValue(digits) <= max then Some(DigitsValue(digits)) else None
  }

  lemma {:induction false} PrintedValue(n: nat)
    ensures DigitsValue(PrintNat(n)) == n
  {
    if n >= 10 {
      PrintedValue(n / 10);
      assert PrintNat(n)[..|PrintNat(n)| - 1] == PrintNat(n / 10);
    }
  }

  lemma ParseOfPrint(n: nat, max: nat)
    requires n <= max
    ensures ParseUnsigned(PrintNat(n), max) == Some(n)
  {
    PrintedValue(n);
    assert PrintNat(n)[0] in PrintNat(n);
  }
}
