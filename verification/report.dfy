/**
 * What the two sort programs print, and what the sortedness oracle makes of
 * it. The timing and memory figures are measurements, so they are taken as
 * opaque strings.
 */
module SortReport {
  import opened CTypes
  import opened Optional
  import opened Partitioner
  import SortPipeline
  import VerifySorted

  // ---------------------------------------------------------------------
  // printf("%d") and a decimal reader that inverts it
  // ---------------------------------------------------------------------

  predicate IsDigit(c: char) {
    '0' <= c <= '9'
  }

  predicate AllDigits(s: string) {
    forall i :: 0 <= i < |s| ==> IsDigit(s[i])
  }

  function DigitChar(d: nat): char
    requires d < 10
  {
    ('0' as int + d) as char
  }

  /** The decimal digits of `n`, most significant first, with no leading zeros. */
  function Digits(n: nat): (r: string)
    ensures |r| >= 1 && AllDigits(r)
    ensures r[0] == '0' ==> n == 0
    ensures |r| > 1 ==> r[0] != '0'
  {
    if n < 10 then [DigitChar(n)]
    else
      var r := Digits(n / 10) + [DigitChar(n % 10)];
      assert r[0] == Digits(n / 10)[0];
      r
  }

  /** `%d`: a minus sign for negative values, then the digits of the magnitude. */
  function ShowInt(x: int): (r: string)
    ensures |r| >= 1 && (r[0] == '-' <==> x < 0)
    ensures forall i :: 0 <= i < |r| ==> r[i] == '-' || IsDigit(r[i])
    ensures x >= 0 ==> AllDigits(r)
    ensures x < 0 ==> |r| >= 2 && AllDigits(r[1..])
  {
    if x < 0 then
      var r := "-" + Digits(-x);
      assert r[1..] == Digits(-x);
      r
    else Digits(x)
  }

  /** The value of a string of decimal digits. */
  function DigitsValue(s: string): nat
    requires AllDigits(s)
  {
    if s == [] then 0
    else DigitsValue(s[..|s| - 1]) * 10 + (s[|s| - 1] as int - '0' as int)
  }

  /** A decimal integer with an optional leading minus sign; anything else is rejected. */
  function ParseDecimal(s: string): (r: Option<int>)
    ensures r.Some? ==> s != [] && (r.value < 0 ==> s[0] == '-')
    ensures r.None? <==> (s == [] || (s[0] == '-' && (|s| == 1 || !AllDigits(s[1..])))
      || (s[0] != '-' && !AllDigits(s)))
  {
    if s == [] then None
    else if s[0] == '-' then
      if |s| > 1 && AllDigits(s[1..]) then Some(0 - DigitsValue(s[1..])) else None
    else if AllDigits(s) then Some(DigitsValue(s))
    else None
  }

  lemma {:induction false} DigitsRoundTrip(n: nat)
    ensures DigitsValue(Digits(n)) == n
    decreases n
  {
    if n >= 10 {
      var d := Digits(n / 10);
      var r := d + [DigitChar(n % 10)];
      assert r[..|r| - 1] == d;
      DigitsRoundTrip(n / 10);
    }
  }

  /** Reading back what `%d` printed gives the printed value. */
  lemma ParseShowRoundTrip(x: int)
    ensures ParseDecimal(ShowInt(x)) == Some(x)
  {
    if x < 0 {
      DigitsRoundTrip(-x);
      assert ShowInt(x)[1..] == Digits(-x);
    } else {
      DigitsRoundTrip(x);
    }
  }

  /** What the oracle's reader must do: give back every C `int` that `%d` printed. */
  predicate ReadsBackCInts(parseInt: string -> Option<int>) {
    forall x :: INT_MIN <= x <= INT_MAX ==> parseInt(ShowInt(x)) == Some(x)
  }

  function Pow10(k: nat): nat {
    if k == 0 then 1 else 10 * Pow10(k - 1)
  }

  /** A value below `10^k` has at most `k` digits. */
  lemma {:induction false} DigitsLength(n: nat, k: nat)
    requires 1 <= k && n < Pow10(k)
    ensures |Digits(n)| <= k
    decreases n
  {
    if n >= 10 {
      assert k >= 2;
      assert n / 10 < Pow10(k - 1);
      DigitsLength(n / 10, k - 1);
    }
  }

  /** The number of digits in a numeral, a leading minus sign not counted. */
  function DigitCount(s: string): nat {
    if s != [] && s[0] == '-' then |s| - 1 else |s|
  }

  /** `%d` of a C `int` has at most ten digits. */
  lemma CIntDigitCount(x: int)
    requires INT_MIN <= x <= INT_MAX
    ensures DigitCount(ShowInt(x)) <= 10
  {
    assert Pow10(10) == 10_000_000_000;
    if x < 0 {
      DigitsLength(-x, 10);
    } else {
      DigitsLength(x, 10);
    }
  }

  /**
   * A decimal reader that refuses numerals of more than `limit` digits, as
   * Python's `int()` refuses more than 4300 in current CPython releases.
   */
  function LimitedReader(limit: nat, s: string): (r: Option<int>)
    ensures DigitCount(s) > limit ==> r == None
    ensures DigitCount(s) <= limit ==> r == ParseDecimal(s)
  {
    if DigitCount(s) > limit then None else ParseDecimal(s)
  }

  /** A reader limited to ten or more digits still reads back every C `int`. */
  lemma LimitedReaderReadsBackCInts(limit: nat)
    requires limit >= 10
    ensures ReadsBackCInts(s => LimitedReader(limit, s))
  {
    forall x | INT_MIN <= x <= INT_MAX ensures LimitedReader(limit, ShowInt(x)) == Some(x) {
      CIntDigitCount(x);
      ParseShowRoundTrip(x);
    }
  }

  // ---------------------------------------------------------------------
  // printArray and the summary
  // ---------------------------------------------------------------------

  /** Each value as `%d` prints it. */
  function Shows(arr: seq<int>): seq<string> {
    seq(|arr|, k requires 0 <= k < |arr| => ShowInt(arr[k]))
  }

  /** The words written one after another with ", " between neighbours. */
  function Commas(words: seq<string>): (r: string)
    ensures words == [] ==> r == []
    ensures words != [] ==> |words[0]| <= |r| && r[..|words[0]|] == words[0]
  {
    if words == [] then ""
    else if |words| == 1 then words[0]
    else
      var r := words[0] + ", " + Commas(words[1..]);
      assert r[..|words[0]|] == words[0];
      r
  }

  /** The loop of `printArray`: each value, with ", " between neighbours. */
  function PrintElements(arr: seq<int>): string {
    Commas(Shows(arr))
  }

  /** One line of `printArray`, newline included. */
  function PrintArray(arr: seq<int>): string {
    "[" + PrintElements(arr) + "]\n"
  }

  /** How the words fall apart at the commas: the first bare, the others after one space. */
  function Padded(words: seq<string>): (ps: seq<string>)
    ensures |ps| == |words|
    ensures words != [] ==> ps[0] == words[0]
    ensures forall k :: 1 <= k < |words| ==> ps[k] == " " + words[k]
  {
    if words == [] then [] else [words[0]] + seq(|words| - 1, k requires 0 <= k < |words| - 1 => " " + words[k + 1])
  }

  lemma {:induction false} JoinConsFirst(c: char, parts: seq<string>, sep: char)
    requires |parts| >= 1
    ensures VerifySorted.Join([[c] + parts[0]] + parts[1..], sep) == [c] + VerifySorted.Join(parts, sep)
  {
    var ps := [[c] + parts[0]] + parts[1..];
    if |parts| > 1 {
      assert ps[1..] == parts[1..];
    }
  }

  lemma PaddedTail(words: seq<string>)
    requires |words| > 1
    ensures Padded(words)[1..] == [[' '] + Padded(words[1..])[0]] + Padded(words[1..])[1..]
  {
    var ps, qs := Padded(words), Padded(words[1..]);
    var tail := [[' '] + qs[0]] + qs[1..];
    forall k | 0 <= k < |tail| ensures ps[1..][k] == tail[k] {
      if k > 0 {
        assert tail[k] == qs[k];
      }
    }
  }

  lemma CommasStep(words: seq<string>)
    requires |words| > 1
    ensures Commas(words) == words[0] + [','] + ([' '] + Commas(words[1..]))
  {
    var e0, er := words[0], Commas(words[1..]);
    assert e0 + ", " + er == e0 + [','] + ([' '] + er);
  }

  /** The words with ", " between them are the padded words joined by commas. */
  lemma {:induction false} CommasIsJoin(words: seq<string>)
    requires words != []
    ensures Commas(words) == VerifySorted.Join(Padded(words), ',')
  {
    if |words| > 1 {
      var rest := words[1..];
      CommasIsJoin(rest);
      var ps, qs := Padded(words), Padded(rest);
      PaddedTail(words);
      JoinConsFirst(' ', qs, ',');
      CommasStep(words);
      assert VerifySorted.Join(ps, ',') == ps[0] + [','] + VerifySorted.Join(ps[1..], ',');
    }
  }

  /** Which of the two sort programs is reporting. */
  datatype SortProgramKind = Processes | Threads

  /** The summary lines printed before the array, newline included. */
  function Summary(kind: SortProgramKind, n: nat, workers: nat, time: string, rss: string): seq<string> {
    match kind
    case Processes =>
      ["=== process_sort results ===\n", "Array size: " + ShowInt(n) + "\n",
       "Workers (processes): " + ShowInt(workers) + "\n", "Time: " + time + " ms\n",
       "Approx Parent RSS: " + rss + " KB\n"]
    case Threads =>
      ["=== thread_sort results ===\n", "Array size: " + ShowInt(n) + "\n",
       "Workers (threads): " + ShowInt(workers) + "\n", "Time: " + time + " ms\n",
       "Approx RSS: " + rss + " KB\n"]
  }

  /**
   * Everything a sort program writes to standard output, one string per
   * line: the summary, then the sorted array when it has at most 32 elements
   * and the merge produced one.
   */
  function SortReportLines(kind: SortProgramKind, n: nat, workers: nat, finalSorted: Option<seq<int>>,
                           time: string, rss: string): seq<string>
  {
    Summary(kind, n, workers, time, rss)
      + (if n <= 32 && finalSorted.Some? then ["Final sorted array:\n", PrintArray(finalSorted.value)] else [])
  }

  // ---------------------------------------------------------------------
  // The oracle's reading of a report
  // ---------------------------------------------------------------------

  /** A line that starts with a visible character other than `[` is never taken for the array. */
  lemma NotBracketedByFirstChar(s: string)
    requires s != [] && !VerifySorted.IsSpace(s[0]) && s[0] != '['
    ensures !VerifySorted.IsBracketed(VerifySorted.Strip(s))
  {
    VerifySorted.StripCharacterized(s);
    VerifySorted.StripEmptyIff(s);
    assert VerifySorted.LeadingSpaces(s) == 0;
  }

  /** Lines that start with a visible character other than `[` are all skipped. */
  lemma NoneBracketed(lines: seq<string>)
    requires forall j :: 0 <= j < |lines| ==> lines[j] != [] && lines[j][0] in "=AWTF"
    ensures forall j :: 0 <= j < |lines| ==> !VerifySorted.IsBracketed(VerifySorted.Strip(lines[j]))
  {
    forall j | 0 <= j < |lines| ensures !VerifySorted.IsBracketed(VerifySorted.Strip(lines[j])) {
      NotBracketedByFirstChar(lines[j]);
    }
  }

  /** Every summary line, and the line announcing the array, starts with one of `=`, `A`, `W`, `T`, `F`. */
  lemma SummaryFirstChars(kind: SortProgramKind, n: nat, workers: nat, time: string, rss: string)
    ensures var lines := Summary(kind, n, workers, time, rss) + ["Final sorted array:\n"];
      forall j :: 0 <= j < |lines| ==> lines[j] != [] && lines[j][0] in "=AWTF"
  {
  }

  lemma HeaderNotBracketed(header: seq<string>)
    requires forall j :: 0 <= j < |header| ==> header[j] != [] && header[j][0] in "=AWTF"
    ensures forall j :: 0 <= j < |header| ==> !VerifySorted.IsBracketed(VerifySorted.Strip(header[j]))
  {
    NoneBracketed(header);
  }

  /** The oracle finds the printed array as the inside of the `printArray` line. */
  lemma PrintArrayInner(arr: seq<int>)
    ensures VerifySorted.IsBracketed(VerifySorted.Strip(PrintArray(arr)))
    ensures VerifySorted.Inner(VerifySorted.Strip(PrintArray(arr))) == PrintElements(arr)
  {
    var t := "[" + PrintElements(arr) + "]";
    assert PrintArray(arr) == [] + t + "\n";
    VerifySorted.StripPadded([], t, "\n");
  }

  /** Splitting the printed elements at the commas gives back the pieces. */
  lemma PrintElementsSplit(arr: seq<int>)
    requires arr != []
    ensures VerifySorted.Split(PrintElements(arr), ',') == Padded(Shows(arr))
  {
    var ws := Shows(arr);
    var ps := Padded(ws);
    CommasIsJoin(ws);
    ShowsAreWords(arr);
    forall k | 0 <= k < |ps| ensures ',' !in ps[k] {
      assert IsWord(ws[k]);
      if k > 0 {
        assert ps[k] == [' '] + ws[k];
      }
    }
    VerifySorted.SplitJoin(ps, ',');
  }

  /** A piece of text with no comma in it that starts and ends with a visible character. */
  predicate IsWord(t: string) {
    t != [] && ',' !in t && !VerifySorted.IsSpace(t[0]) && !VerifySorted.IsSpace(t[|t| - 1])
  }

  /** Every printed number is a word. */
  lemma ShowIntIsWord(x: int)
    ensures IsWord(ShowInt(x))
  {
    var t := ShowInt(x);
    assert t[0] == '-' || IsDigit(t[0]);
    assert t[|t| - 1] == '-' || IsDigit(t[|t| - 1]);
  }

  lemma ShowsAreWords(arr: seq<int>)
    ensures forall k :: 0 <= k < |arr| ==> IsWord(Shows(arr)[k])
  {
    forall k | 0 <= k < |arr| ensures IsWord(Shows(arr)[k]) {
      ShowIntIsWord(arr[k]);
    }
  }

  /** A word strips to itself, with or without one space in front. */
  lemma WordStrips(t: string)
    requires IsWord(t)
    ensures VerifySorted.Strip(t) == t
    ensures VerifySorted.Strip(" " + t) == t
  {
    WordStripsAfter([], t);
    WordStripsAfter(" ", t);
    assert [] + t == t;
  }

  /** A word strips to itself after leading whitespace. */
  lemma WordStripsAfter(pre: string, t: string)
    requires IsWord(t) && (pre == [] || pre == " ")
    ensures VerifySorted.Strip(pre + t) == t
  {
    assert pre + t == pre + t + [];
    VerifySorted.StripPadded(pre, t, []);
  }

  /** Stripping each padded word leaves the word. */
  lemma PaddedStrips(words: seq<string>)
    requires forall k :: 0 <= k < |words| ==> IsWord(words[k])
    ensures forall k :: 0 <= k < |words| ==> VerifySorted.Strip(Padded(words)[k]) == words[k]
  {
    forall k | 0 <= k < |words| ensures VerifySorted.Strip(Padded(words)[k]) == words[k] {
      WordStrips(words[k]);
    }
  }

  /** The conversion succeeds with exactly the values each stripped piece reads as. */
  lemma ParseElementsOf(e: string, arr: seq<int>, parseInt: string -> Option<int>)
    requires |VerifySorted.Split(e, ',')| == |arr|
    requires forall k :: 0 <= k < |arr| ==> parseInt(VerifySorted.Strip(VerifySorted.Split(e, ',')[k])) == Some(arr[k])
    ensures VerifySorted.ParseElements(e, parseInt) == Some(arr)
  {
    var r := VerifySorted.ParseElements(e, parseInt);
    if r.Some? {
      assert forall k :: 0 <= k < |arr| ==> r.value[k] == arr[k];
      assert r.value == arr;
    }
  }

  /** The printed elements of a non-empty array do not strip to nothing. */
  lemma PrintElementsNotBlank(arr: seq<int>)
    requires arr != []
    ensures VerifySorted.Strip(PrintElements(arr)) != []
  {
    var e, t := PrintElements(arr), ShowInt(arr[0]);
    assert Shows(arr)[0] == t;
    ShowIntIsWord(arr[0]);
    assert !VerifySorted.IsSpace(t[0]);
    assert e[0] == e[..|t|][0] == t[0];
    VerifySorted.StripEmptyIff(e);
  }

  /** The printed elements are split, stripped and converted back into `arr`. */
  lemma PrintElementsParse(arr: seq<int>, parseInt: string -> Option<int>)
    requires arr != [] && AllCInts(arr)
    requires ReadsBackCInts(parseInt)
    ensures VerifySorted.ParseElements(PrintElements(arr), parseInt) == Some(arr)
  {
    var e := PrintElements(arr);
    var ps := Padded(Shows(arr));
    PrintElementsSplit(arr);
    ShowsAreWords(arr);
    PaddedStrips(Shows(arr));
    forall k | 0 <= k < |ps| ensures parseInt(VerifySorted.Strip(ps[k])) == Some(arr[k]) {
      assert INT_MIN <= arr[k] <= INT_MAX;
      assert VerifySorted.Strip(ps[k]) == ShowInt(arr[k]);
    }
    ParseElementsOf(e, arr, parseInt);
  }

  /** After lines that are all skipped, a printed non-empty sorted array is accepted. */
  lemma OracleAcceptsPrintedArray(header: seq<string>, arr: seq<int>, parseInt: string -> Option<int>)
    requires forall j :: 0 <= j < |header| ==> !VerifySorted.IsBracketed(VerifySorted.Strip(header[j]))
    requires arr != [] && AllCInts(arr) && SortPipeline.Sorted(arr)
    requires ReadsBackCInts(parseInt)
    ensures VerifySorted.Scan(header + [PrintArray(arr)], parseInt) == VerifySorted.SortedOk
  {
    var lines := header + [PrintArray(arr)];
    var k := |header|;
    assert forall j :: 0 <= j < k ==> lines[j] == header[j];
    PrintArrayInner(arr);
    VerifySorted.FirstBracketedLineDecidesVerdict(lines, [], parseInt, k);
    PrintElementsParse(arr, parseInt);
    PrintElementsNotBlank(arr);
    VerifySorted.IsSortedIffSorted(arr);
  }

  /** Output in which every line is skipped has no array in it. */
  lemma OracleFindsNoArray(lines: seq<string>, parseInt: string -> Option<int>)
    requires forall j :: 0 <= j < |lines| ==> !VerifySorted.IsBracketed(VerifySorted.Strip(lines[j]))
    ensures VerifySorted.Main(lines, parseInt) == ("ERROR: no array found (expecting [1, 2, ...])", 1)
  {
    VerifySorted.NoArrayIff(lines, parseInt);
  }

  /**
   * The oracle accepts a sort program's output exactly when the array was
   * printed: "OK" with exit status 0 for 1 to 32 elements, and "no array
   * found" with exit status 1 for an empty input or one longer than 32.
   * `finalSorted` is what the sort program's contract promises, and
   * `parseInt` is any reader that gives back every C `int` that `%d` printed.
   */
  lemma OracleVerdictOnSortReport(kind: SortProgramKind, n: nat, workers: nat, finalSorted: Option<seq<int>>,
                                  time: string, rss: string, parseInt: string -> Option<int>)
    requires finalSorted == None <==> n == 0
    requires finalSorted.Some? ==> SortPipeline.Sorted(finalSorted.value) && |finalSorted.value| == n
    requires finalSorted.Some? ==> AllCInts(finalSorted.value)
    requires ReadsBackCInts(parseInt)
    ensures var out := VerifySorted.Main(SortReportLines(kind, n, workers, finalSorted, time, rss), parseInt);
      && (0 < n <= 32 ==> out == ("OK", 0))
      && (n == 0 || n > 32 ==> out == ("ERROR: no array found (expecting [1, 2, ...])", 1))
  {
    SummaryFirstChars(kind, n, workers, time, rss);
    HeaderNotBracketed(Summary(kind, n, workers, time, rss) + ["Final sorted array:\n"]);
    OracleOnReport(Summary(kind, n, workers, time, rss), n, finalSorted, parseInt);
  }

  /** `OracleVerdictOnSortReport` for any summary in which the oracle finds no array. */
  lemma OracleOnReport(summary: seq<string>, n: nat, finalSorted: Option<seq<int>>, parseInt: string -> Option<int>)
    requires forall j :: 0 <= j < |summary + ["Final sorted array:\n"]| ==>
      !VerifySorted.IsBracketed(VerifySorted.Strip((summary + ["Final sorted array:\n"])[j]))
    requires finalSorted == None <==> n == 0
    requires finalSorted.Some? ==> SortPipeline.Sorted(finalSorted.value) && |finalSorted.value| == n
    requires finalSorted.Some? ==> AllCInts(finalSorted.value)
    requires ReadsBackCInts(parseInt)
    ensures var out := VerifySorted.Main(summary
        + (if n <= 32 && finalSorted.Some? then ["Final sorted array:\n", PrintArray(finalSorted.value)] else []), parseInt);
      && (0 < n <= 32 ==> out == ("OK", 0))
      && (n == 0 || n > 32 ==> out == ("ERROR: no array found (expecting [1, 2, ...])", 1))
  {
    var header := summary + ["Final sorted array:\n"];
    if 0 < n <= 32 {
      assert summary + ["Final sorted array:\n", PrintArray(finalSorted.value)] == header + [PrintArray(finalSorted.value)];
      OracleAcceptsPrintedArray(header, finalSorted.value, parseInt);
    } else {
      assert summary + [] == summary;
      assert forall j :: 0 <= j < |summary| ==> summary[j] == header[j];
      OracleFindsNoArray(summary, parseInt);
    }
  }
}
