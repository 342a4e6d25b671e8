/**
 * The text handling that the task parser relies on: splitting the output
 * of the task manager into lines, `String#include?`, the issue token
 * pattern `\sIssue #(\d+)\s`, reading the digit group as a base-10 number
 * and writing a number back in decimal for the task URL.
 */
module TaskText {
  import opened Wrappers

  /** The characters Ruby's `\s` matches: space, tab, LF, VT, FF and CR. */
  predicate IsSpace(c: char) {
    c == ' ' || c == '\t' || c == '\n' || c == '\U{000B}' || c == '\U{000C}' || c == '\r'
  }

  /** The characters Ruby's `\d` matches. */
  predicate IsDigit(c: char) {
    '0' <= c <= '9'
  }

  /**
   * Ruby's `String#include?`: the left-to-right search from the start,
   * which holds exactly when `sub` occurs in `s` as a contiguous slice.
   */
  predicate Contains(s: string, sub: string): (b: bool)
    ensures b <==> exists i :: SliceIs(s, sub, i)
  {
    ContainsFromIsOccurrence(s, sub, 0);
    ContainsFrom(s, sub, 0)
  }

  /** `sub` occurs in `s` at some position `from` or later, searching left to right. */
  predicate ContainsFrom(s: string, sub: string, from: nat)
    decreases |s| - from
  {
    if |s| < from + |sub| then false
    else if OccursAt(s, sub, from) then true
    else ContainsFrom(s, sub, from + 1)
  }

  /** `sub` occurs in `s` starting at `i`, compared character by character. */
  predicate OccursAt(s: string, sub: string, i: nat)
    requires i + |sub| <= |s|
    decreases |sub|
  {
    sub == [] || (s[i] == sub[0] && OccursAt(s, sub[1..], i + 1))
  }

  /** The slice of `s` at `i` as long as `sub` is `sub`. */
  ghost predicate SliceIs(s: string, sub: string, i: int) {
    0 <= i <= |s| - |sub| && s[i..i + |sub|] == sub
  }

  /** The character comparison agrees with comparing the slice. */
  lemma {:induction false} OccursAtIsSlice(s: string, sub: string, i: nat)
    requires i + |sub| <= |s|
    ensures OccursAt(s, sub, i) <==> SliceIs(s, sub, i)
    decreases |sub|
  {
    if sub != [] {
      OccursAtIsSlice(s, sub[1..], i + 1);
      if s[i] == sub[0] {
        assert s[i..i + |sub|] == [s[i]] + s[i + 1..i + 1 + |sub[1..]|];
        assert sub == [sub[0]] + sub[1..];
      }
    }
  }

  /** The left-to-right search finds `sub` exactly where it occurs. */
  lemma {:induction false} ContainsFromIsOccurrence(s: string, sub: string, from: nat)
    ensures ContainsFrom(s, sub, from) <==> exists i :: from <= i && SliceIs(s, sub, i)
    decreases |s| - from
  {
    if |s| >= from + |sub| {
      OccursAtIsSlice(s, sub, from);
      if !OccursAt(s, sub, from) {
        ContainsFromIsOccurrence(s, sub, from + 1);
        if exists i :: from <= i && SliceIs(s, sub, i) {
          var i :| from <= i && SliceIs(s, sub, i);
          assert i != from;
        }
      }
    }
  }

  /** The literal text between the leading `\s` and the digit group. */
  const Marker: string := "Issue #"

  /** The digit group of a match at `i` starts here. */
  function DigitsStart(i: nat): nat {
    i + 1 + |Marker|
  }

  /** The length of the longest run of digits starting at `k`. */
  function DigitRun(s: string, k: nat): (n: nat)
    requires k <= |s|
    ensures k + n <= |s|
    ensures forall j :: k <= j < k + n ==> IsDigit(s[j])
    ensures k + n == |s| || !IsDigit(s[k + n])
    decreases |s| - k
  {
    if k < |s| && IsDigit(s[k]) then 1 + DigitRun(s, k + 1) else 0
  }

  /**
   * The pattern `\sIssue #(\d+)\s` read literally: it matches `s` starting
   * at `i` with its digit group `s[DigitsStart(i)..e]`.
   */
  ghost predicate MatchesAt(s: string, i: int, e: int) {
    && 0 <= i
    && DigitsStart(i) < e < |s|
    && IsSpace(s[i])
    && s[i + 1..DigitsStart(i)] == Marker
    && (forall j :: DigitsStart(i) <= j < e ==> IsDigit(s[j]))
    && IsSpace(s[e])
  }

  /**
   * The pattern tried at `i` as a greedy matcher does it: the digit group
   * takes every digit it can, and then a space must follow.
   */
  predicate TokenAt(s: string, i: nat) {
    && DigitsStart(i) <= |s|
    && IsSpace(s[i])
    && OccursAt(s, Marker, i + 1)
    && var n := DigitRun(s, DigitsStart(i));
       n > 0 && DigitsStart(i) + n < |s| && IsSpace(s[DigitsStart(i) + n])
  }

  /**
   * The greedy matcher agrees with the pattern, and the digit group of a
   * match is unique: it is the whole run of digits, since a space is no digit.
   */
  lemma TokenAtIsMatch(s: string, i: nat)
    ensures TokenAt(s, i) <==> exists e :: MatchesAt(s, i, e)
    ensures forall e :: MatchesAt(s, i, e) ==> e == DigitsStart(i) + DigitRun(s, DigitsStart(i))
  {
    if DigitsStart(i) <= |s| {
      OccursAtIsSlice(s, Marker, i + 1);
    }
    forall e | MatchesAt(s, i, e)
      ensures e == DigitsStart(i) + DigitRun(s, DigitsStart(i))
    {
    }
    if TokenAt(s, i) {
      assert MatchesAt(s, i, DigitsStart(i) + DigitRun(s, DigitsStart(i)));
    }
  }

  /** The leftmost position at or after `from` where the pattern matches. */
  function FirstToken(s: string, from: nat): (r: Option<nat>)
    ensures r.Some? ==> from <= r.value && TokenAt(s, r.value)
    ensures r.Some? ==> forall j :: from <= j < r.value ==> !TokenAt(s, j)
    ensures r.None? ==> forall j :: from <= j ==> !TokenAt(s, j)
    decreases |s| - from
  {
    if |s| <= from then None
    else if TokenAt(s, from) then Some(from)
    else FirstToken(s, from + 1)
  }

  /** The value of a digit character. */
  function DigitValue(c: char): nat {
    if IsDigit(c) then c as int - '0' as int else 0
  }

  /** The base-10 value of a string of decimal digits, as Ruby's `to_i` reads it. */
  function DecimalValue(digits: string): nat {
    if digits == [] then 0
    else 10 * DecimalValue(digits[..|digits| - 1]) + DigitValue(digits[|digits| - 1])
  }

  /** The number in the digit group of the match at `i`. */
  function TokenValue(s: string, i: nat): nat
    requires DigitsStart(i) <= |s|
  {
    var d := DigitsStart(i);
    DecimalValue(s[d..d + DigitRun(s, d)])
  }

  /**
   * The issue number of a line: the value of the digit group of the
   * leftmost match of the pattern, or nothing when it matches nowhere.
   */
  function IssueNumber(line: string): (r: Option<nat>)
    ensures r.None? <==> forall i, e :: !MatchesAt(line, i, e)
  {
    match FirstToken(line, 0)
    case None =>
      NoTokenNoMatch(line);
      None
    case Some(i) =>
      FirstTokenIsLeftmost(line, i);
      Some(TokenValue(line, i))
  }

  /** Where the search finds no match, the pattern matches nowhere. */
  lemma NoTokenNoMatch(line: string)
    requires FirstToken(line, 0).None?
    ensures forall i, e :: !MatchesAt(line, i, e)
  {
    forall i, e | MatchesAt(line, i, e) ensures false {
      TokenAtIsMatch(line, i);
    }
  }

  /** The match the search finds is the leftmost one. */
  lemma FirstTokenIsLeftmost(line: string, i: nat)
    requires FirstToken(line, 0) == Some(i)
    ensures MatchesAt(line, i, DigitsStart(i) + DigitRun(line, DigitsStart(i)))
    ensures forall i', e' :: 0 <= i' < i ==> !MatchesAt(line, i', e')
  {
    TokenAtIsMatch(line, i);
    forall i', e' | 0 <= i' < i ensures !MatchesAt(line, i', e') {
      TokenAtIsMatch(line, i');
    }
  }

  /**
   * IssueNumber finds the leftmost match of the pattern and reads its digit
   * group; it finds nothing exactly when the pattern matches nowhere.
   */
  lemma IssueNumberIsLeftmostMatch(line: string)
    ensures IssueNumber(line).None? <==> forall i, e :: !MatchesAt(line, i, e)
    ensures IssueNumber(line).Some? ==>
      exists i, e ::
        && MatchesAt(line, i, e)
        && (forall i', e' :: 0 <= i' < i ==> !MatchesAt(line, i', e'))
        && IssueNumber(line).value == DecimalValue(line[DigitsStart(i)..e])
  {
    if FirstToken(line, 0).Some? {
      var i := FirstToken(line, 0).value;
      FirstTokenIsLeftmost(line, i);
      var e := DigitsStart(i) + DigitRun(line, DigitsStart(i));
      assert IssueNumber(line) == Some(TokenValue(line, i));
      assert TokenValue(line, i) == DecimalValue(line[DigitsStart(i)..e]);
    }
  }

  /** The character for a digit value. */
  function DigitChar(d: nat): (c: char)
    requires d < 10
    ensures IsDigit(c) && DigitValue(c) == d
  {
    ('0' as int + d) as char
  }

  /** The decimal digits of `n`, without leading zeros, as Ruby's `to_s` writes them. */
  function DecimalString(n: nat): (r: string)
    ensures |r| > 0
    ensures forall j :: 0 <= j < |r| ==> IsDigit(r[j])
    ensures r[0] == '0' ==> n == 0 && r == "0"
  {
    if n < 10 then [DigitChar(n)] else DecimalString(n / 10) + [DigitChar(n % 10)]
  }

  /** Writing a number in decimal and reading it back gives the number. */
  lemma {:induction false} DecimalRoundTrip(n: nat)
    ensures DecimalValue(DecimalString(n)) == n
  {
    var r := DecimalString(n);
    if n >= 10 {
      DecimalRoundTrip(n / 10);
      assert r[..|r| - 1] == DecimalString(n / 10);
    }
  }

  /** The URL of the repository `name`'s issues on GitHub, up to the number. */
  function IssuesPrefix(name: string): string {
    "https://github.com/" + name + "/issues/"
  }

  /**
   * The URL of issue `number` of the repository `name` on GitHub: the
   * issues prefix followed by digits that read back as the number.
   */
  function TaskUrl(name: string, number: nat): (url: string)
    ensures |IssuesPrefix(name)| < |url| && url[..|IssuesPrefix(name)|] == IssuesPrefix(name)
    ensures forall j :: |IssuesPrefix(name)| <= j < |url| ==> IsDigit(url[j])
    ensures DecimalValue(url[|IssuesPrefix(name)|..]) == number
    ensures url[|IssuesPrefix(name)|] == '0' ==> number == 0 && url == IssuesPrefix(name) + "0"
  {
    var url := IssuesPrefix(name) + DecimalString(number);
    assert url[|IssuesPrefix(name)|..] == DecimalString(number);
    DecimalRoundTrip(number);
    url
  }

  // ---------------------------------------------------------------------
  // Splitting the task manager's output at every `\r?\n`
  // ---------------------------------------------------------------------

  /**
   * The fields of `s` between line breaks, where a line break is the
   * leftmost `\r?\n`; `current` is the field read so far.
   */
  function Fields(s: string, current: string): (r: seq<string>)
    requires '\n' !in current
    ensures |r| > 0
    ensures forall k :: 0 <= k < |r| ==> '\n' !in r[k]
    decreases |s|
  {
    if s == [] then [current]
    else if s[0] == '\n' then [current] + Fields(s[1..], [])
    else if s[0] == '\r' && |s| > 1 && s[1] == '\n' then [current] + Fields(s[2..], [])
    else Fields(s[1..], current + [s[0]])
  }

  /** Ruby's `split` drops the empty fields at the end. */
  function DropTrailingEmpty(fields: seq<string>): (r: seq<string>)
    ensures |r| <= |fields| && r == fields[..|r|]
    ensures r != [] ==> r[|r| - 1] != []
    ensures forall k :: |r| <= k < |fields| ==> fields[k] == []
  {
    if fields == [] then []
    else if fields[|fields| - 1] == [] then DropTrailingEmpty(fields[..|fields| - 1])
    else fields
  }

  /** The lines of the task manager's output: its fields without the empty ones at the end. */
  function SplitLines(output: string): (lines: seq<string>)
    ensures forall k :: 0 <= k < |lines| ==> '\n' !in lines[k]
    ensures lines != [] ==> lines[|lines| - 1] != []
  {
    DropTrailingEmpty(Fields(output, []))
  }

  /** The inverse of Fields: the fields joined with `\n`. */
  function JoinLines(lines: seq<string>): string {
    if lines == [] then []
    else if |lines| == 1 then lines[0]
    else lines[0] + "\n" + JoinLines(lines[1..])
  }

  /** `s` with every line break `\r?\n` (leftmost first) written as `\n`. */
  function NormalizeBreaks(s: string): string
    decreases |s|
  {
    if s == [] then []
    else if s[0] == '\r' && |s| > 1 && s[1] == '\n' then "\n" + NormalizeBreaks(s[2..])
    else [s[0]] + NormalizeBreaks(s[1..])
  }

  /** Joining the fields with `\n` gives back the text, with `\r\n` read as `\n`. */
  lemma {:induction false} FieldsJoin(s: string, current: string)
    requires '\n' !in current
    ensures JoinLines(Fields(s, current)) == current + NormalizeBreaks(s)
    decreases |s|
  {
    if s == [] {
    } else if s[0] == '\n' {
      FieldsJoin(s[1..], []);
      assert NormalizeBreaks(s) == "\n" + NormalizeBreaks(s[1..]);
    } else if s[0] == '\r' && |s| > 1 && s[1] == '\n' {
      FieldsJoin(s[2..], []);
    } else {
      FieldsJoin(s[1..], current + [s[0]]);
    }
  }

  /** Text without carriage returns is unchanged by NormalizeBreaks. */
  lemma {:induction false} NormalizeWithoutCr(s: string)
    requires '\r' !in s
    ensures NormalizeBreaks(s) == s
    decreases |s|
  {
    if s != [] {
      NormalizeWithoutCr(s[1..]);
    }
  }

  /** How many empty lines SplitLines drops at the end of `output`. */
  function TrailingBlanks(output: string): nat {
    |Fields(output, [])| - |SplitLines(output)|
  }

  /**
   * SplitLines loses only trailing empty lines: its lines, followed by
   * empty ones, joined with `\n`, give back the text.
   */
  lemma SplitLinesRoundTrip(output: string)
    ensures JoinLines(SplitLines(output) + seq(TrailingBlanks(output), _ => [])) == NormalizeBreaks(output)
  {
    var fields := Fields(output, []);
    var lines := SplitLines(output);
    assert fields == lines + seq(TrailingBlanks(output), _ => []);
    FieldsJoin(output, []);
  }
}
