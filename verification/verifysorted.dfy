/**
 * The sortedness oracle used by the test scripts: it reads the program's
 * output line by line, takes the first line that looks like a bracketed
 * list, parses its comma-separated elements as integers and reports whether
 * they are non-decreasing.
 *
 * Python's `int()` is not modelled; it is the parameter `parseInt`, a total
 * function that answers `None` where `int()` raises `ValueError`.
 */
module VerifySorted {
  import opened Optional
  import SortPipeline

  // ---------------------------------------------------------------------
  // is_sorted
  // ---------------------------------------------------------------------

  /** Every adjacent pair is non-decreasing. */
  predicate IsSorted(nums: seq<int>) {
    forall i :: 0 <= i < |nums| - 1 ==> nums[i] <= nums[i + 1]
  }

  lemma {:induction false} AdjacentChain(nums: seq<int>, i: int, j: int)
    requires IsSorted(nums) && 0 <= i <= j < |nums|
    ensures nums[i] <= nums[j]
    decreases j - i
  {
    if i < j {
      AdjacentChain(nums, i + 1, j);
    }
  }

  /**
   * The adjacent-pair check agrees with the pairwise definition of sorted
   * used by the sort programs, and it holds vacuously for lists of length
   * zero and one.
   */
  lemma IsSortedIffSorted(nums: seq<int>)
    ensures IsSorted(nums) <==> SortPipeline.Sorted(nums)
    ensures |nums| <= 1 ==> IsSorted(nums)
  {
    if IsSorted(nums) {
      forall i, j | 0 <= i < j < |nums| ensures nums[i] <= nums[j] {
        AdjacentChain(nums, i, j);
      }
    }
  }

  // ---------------------------------------------------------------------
  // str.strip()
  // ---------------------------------------------------------------------

  /** The characters for which Python's `str.isspace()` is true. */
  predicate IsSpace(c: char) {
    var n := c as int;
    (9 <= n <= 13) || (28 <= n <= 32) || n == 0x85 || n == 0xA0 || n == 0x1680
    || (0x2000 <= n <= 0x200A) || n == 0x2028 || n == 0x2029 || n == 0x202F
    || n == 0x205F || n == 0x3000
  }

  predicate AllSpace(s: string) {
    forall i :: 0 <= i < |s| ==> IsSpace(s[i])
  }

  lemma AllSpaceCons(c: char, t: string)
    requires IsSpace(c) && AllSpace(t)
    ensures AllSpace([c] + t)
  {
    var u := [c] + t;
    forall i | 0 <= i < |u| ensures IsSpace(u[i]) {
      if i > 0 {
        assert u[i] == t[i - 1];
      }
    }
  }

  lemma AllSpaceSnoc(t: string, c: char)
    requires AllSpace(t) && IsSpace(c)
    ensures AllSpace(t + [c])
  {
    var u := t + [c];
    forall i | 0 <= i < |u| ensures IsSpace(u[i]) {
      if i < |t| {
        assert u[i] == t[i];
      }
    }
  }

  /** The number of whitespace characters `s` starts with. */
  function LeadingSpaces(s: string): (k: nat)
    ensures k <= |s| && AllSpace(s[..k])
    ensures k == |s| || !IsSpace(s[k])
  {
    if s != [] && IsSpace(s[0]) then
      var t := s[1..];
      var k := LeadingSpaces(t);
      assert s[..k + 1] == [s[0]] + t[..k];
      AllSpaceCons(s[0], t[..k]);
      assert k + 1 == |s| || s[k + 1] == t[k];
      k + 1
    else 0
  }

  /** The number of whitespace characters `s` ends with. */
  function TrailingSpaces(s: string): (k: nat)
    ensures k <= |s| && AllSpace(s[|s| - k..])
    ensures k == |s| || !IsSpace(s[|s| - k - 1])
  {
    if s != [] && IsSpace(s[|s| - 1]) then
      var t := s[..|s| - 1];
      var k := TrailingSpaces(t);
      assert s[|s| - (k + 1)..] == t[|t| - k..] + [s[|s| - 1]];
      AllSpaceSnoc(t[|t| - k..], s[|s| - 1]);
      assert k + 1 == |s| || s[|s| - (k + 1) - 1] == t[|t| - k - 1];
      k + 1
    else 0
  }

  /** `s.lstrip()`. */
  function StripLeft(s: string): string {
    s[LeadingSpaces(s)..]
  }

  /** `s.rstrip()`. */
  function StripRight(s: string): string {
    s[..|s| - TrailingSpaces(s)]
  }

  /** `s.strip()`. */
  function Strip(s: string): string {
    StripRight(StripLeft(s))
  }

  /**
   * Stripping removes exactly the whitespace at both ends: the result is the
   * piece of `s` that starts after the leading whitespace, its ends are not
   * spaces, and everything cut away on either side is whitespace.
   */
  lemma StripCharacterized(s: string)
    ensures var lo, r := |s| - |StripLeft(s)|, Strip(s);
      && lo + |r| <= |s| && s[lo..lo + |r|] == r
      && AllSpace(s[..lo]) && AllSpace(s[lo + |r|..])
      && (r == [] || (!IsSpace(r[0]) && !IsSpace(r[|r| - 1])))
  {
    var l := StripLeft(s);
    var r := StripRight(l);
    var lo := |s| - |l|;
    assert s[lo..lo + |r|] == l[..|r|];
    assert s[lo + |r|..] == l[|r|..];
    if r != [] {
      assert r[0] == l[0];
    }
  }

  /** A line strips to nothing exactly when it is all whitespace. */
  lemma StripEmptyIff(s: string)
    ensures Strip(s) == [] <==> AllSpace(s)
  {
    var l := StripLeft(s);
    if Strip(s) == [] {
      assert AllSpace(l[0..]);
      assert l == [];
      assert s[..|s|] == s;
    }
  }

  lemma {:induction false} StripLeftPadded(pre: string, t: string)
    requires AllSpace(pre) && (t == [] || !IsSpace(t[0]))
    ensures StripLeft(pre + t) == t
    decreases |pre|
  {
    if pre != [] {
      assert (pre + t)[1..] == pre[1..] + t;
      StripLeftPadded(pre[1..], t);
    } else {
      assert pre + t == t;
    }
  }

  lemma {:induction false} StripRightPadded(t: string, post: string)
    requires AllSpace(post) && (t == [] || !IsSpace(t[|t| - 1]))
    ensures StripRight(t + post) == t
    decreases |post|
  {
    if post != [] {
      assert (t + post)[..|t + post| - 1] == t + post[..|post| - 1];
      StripRightPadded(t, post[..|post| - 1]);
    } else {
      assert t + post == t;
    }
  }

  /** Stripping undoes padding a word with whitespace on both sides. */
  lemma StripPadded(pre: string, t: string, post: string)
    requires AllSpace(pre) && AllSpace(post)
    requires t == [] || (!IsSpace(t[0]) && !IsSpace(t[|t| - 1]))
    ensures Strip(pre + t + post) == t
  {
    if t == [] {
      assert pre + t + post == pre + post;
      StripLeftPadded(pre + post, []);
      assert pre + post + [] == pre + post;
      assert AllSpace(pre + post);
    } else {
      assert pre + t + post == pre + (t + post);
      StripLeftPadded(pre, t + post);
      StripRightPadded(t, post);
    }
  }

  // ---------------------------------------------------------------------
  // str.split(',') and its inverse
  // ---------------------------------------------------------------------

  /** `sep.join(parts)`. */
  function Join(parts: seq<string>, sep: char): string
    requires |parts| >= 1
  {
    if |parts| == 1 then parts[0] else parts[0] + [sep] + Join(parts[1..], sep)
  }

  /** `s.split(sep)` for a one-character separator: always at least one piece, never containing the separator, and joining the pieces gives `s` back. */
  function Split(s: string, sep: char): (parts: seq<string>)
    ensures |parts| >= 1
    ensures forall k :: 0 <= k < |parts| ==> sep !in parts[k]
    ensures Join(parts, sep) == s
  {
    if s == [] then [[]]
    else
      var rest := Split(s[1..], sep);
      if s[0] == sep then
        assert Join([[]] + rest, sep) == [sep] + Join(rest, sep);
        [[]] + rest
      else
        var parts := [[s[0]] + rest[0]] + rest[1..];
        assert Join(parts, sep) == [s[0]] + Join(rest, sep) by {
          if |rest| > 1 {
            assert parts[1..] == rest[1..];
          }
        }
        parts
  }

  /** Splitting undoes joining pieces that do not contain the separator. */
  lemma {:induction false} SplitJoin(parts: seq<string>, sep: char)
    requires |parts| >= 1
    requires forall k :: 0 <= k < |parts| ==> sep !in parts[k]
    ensures Split(Join(parts, sep), sep) == parts
    decreases |Join(parts, sep)|
  {
    var s := Join(parts, sep);
    if parts[0] == [] {
      if |parts| > 1 {
        assert s == [sep] + Join(parts[1..], sep);
        assert s[1..] == Join(parts[1..], sep);
        SplitJoin(parts[1..], sep);
        assert parts == [[]] + parts[1..];
      }
    } else {
      var p0 := parts[0];
      var tailParts := [p0[1..]] + parts[1..];
      assert p0 == [p0[0]] + p0[1..];
      assert p0[0] != sep by { assert p0[0] in p0; }
      assert sep !in p0[1..] by {
        forall i | 0 <= i < |p0[1..]| ensures p0[1..][i] != sep {
          assert p0[1..][i] == p0[i + 1];
        }
      }
      assert tailParts[1..] == parts[1..];
      assert Join(tailParts, sep) == s[1..] by {
        if |parts| > 1 {
          assert s == p0 + [sep] + Join(parts[1..], sep);
        }
      }
      SplitJoin(tailParts, sep);
      var rest := Split(s[1..], sep);
      assert rest == tailParts;
      assert s[0] == p0[0];
      assert Split(s, sep) == [[p0[0]] + rest[0]] + rest[1..];
    }
  }

  // ---------------------------------------------------------------------
  // The list comprehension and the `map(int, parts)` call
  // ---------------------------------------------------------------------

  function StripAll(parts: seq<string>): seq<string> {
    seq(|parts|, k requires 0 <= k < |parts| => Strip(parts[k]))
  }

  /** `list(map(int, parts))`: every piece must parse, in order, or the whole conversion fails. */
  function ParseAll(parts: seq<string>, parseInt: string -> Option<int>): (r: Option<seq<int>>)
    ensures r.Some? <==> forall k :: 0 <= k < |parts| ==> parseInt(parts[k]).Some?
    ensures r.Some? ==> |r.value| == |parts|
    ensures r.Some? ==> forall k :: 0 <= k < |parts| ==> parseInt(parts[k]) == Some(r.value[k])
  {
    if parts == [] then Some([])
    else match parseInt(parts[0])
      case None => None
      case Some(x) =>
        match ParseAll(parts[1..], parseInt)
        case None => None
        case Some(xs) => Some([x] + xs)
  }

  // ---------------------------------------------------------------------
  // main()
  // ---------------------------------------------------------------------

  /** What `main` prints, one value per `print` call. */
  datatype Verdict = EmptyList | SortedOk | NotSorted | ParseError | NoArray

  function Message(v: Verdict): string {
    match v
    case EmptyList => "OK: empty list"
    case SortedOk => "OK"
    case NotSorted => "NOT SORTED"
    case ParseError => "ERROR: could not parse ints"
    case NoArray => "ERROR: no array found (expecting [1, 2, ...])"
  }

  /** The value `main` returns, which becomes the process exit status. */
  function ExitCode(v: Verdict): int {
    match v
    case ParseError => 1
    case NoArray => 1
    case _ => 0
  }

  /** A stripped line that starts with `[` and ends with `]`. */
  predicate IsBracketed(line: string) {
    |line| >= 1 && line[0] == '[' && line[|line| - 1] == ']'
  }

  /** `line[1:-1]` of a bracketed line. */
  function Inner(line: string): (r: string)
    requires IsBracketed(line)
    ensures |line| >= 2 && line == ['['] + r + [']']
  {
    line[1..|line| - 1]
  }

  /** The final `if not data` test and the `is_sorted` verdict. */
  function Finish(data: seq<int>): Verdict {
    if data == [] then NoArray
    else if IsSorted(data) then SortedOk
    else NotSorted
  }

  /**
   * The element list of a bracketed line: split on commas, strip each piece
   * and convert it. A successful conversion always yields at least one
   * number, because splitting never yields zero pieces.
   */
  function ParseElements(content: string, parseInt: string -> Option<int>): (r: Option<seq<int>>)
    ensures r.Some? ==> |r.value| == |Split(content, ',')| >= 1
    ensures r.Some? ==> forall k :: 0 <= k < |r.value| ==> parseInt(Strip(Split(content, ',')[k])) == Some(r.value[k])
    ensures r.None? ==> exists k :: 0 <= k < |Split(content, ',')| && parseInt(Strip(Split(content, ',')[k])).None?
  {
    var parts := StripAll(Split(content, ','));
    var r := ParseAll(parts, parseInt);
    if r.None? then
      assert exists k :: 0 <= k < |parts| && parseInt(parts[k]).None?;
      r
    else r
  }

  /** The inside of the first bracketed line decides the outcome. */
  function Examine(content: string, parseInt: string -> Option<int>): Verdict {
    if Strip(content) == [] then EmptyList
    else match ParseElements(content, parseInt)
      case None => ParseError
      case Some(data) => Finish(data)
  }

  /**
   * The search done by the `for line in sys.stdin` loop: blank lines and
   * lines that are not a bracketed list are skipped, and the first bracketed
   * line ends the loop (by a `return` or by the `break`).
   */
  function FirstArray(lines: seq<string>): Option<string> {
    if lines == [] then None
    else
      var line := Strip(lines[0]);
      if line == [] then FirstArray(lines[1..])
      else if IsBracketed(line) then Some(Inner(line))
      else FirstArray(lines[1..])
  }

  /** The verdict of one run: the loop, then the `if not data` test and `is_sorted`. */
  function Scan(lines: seq<string>, parseInt: string -> Option<int>): Verdict {
    match FirstArray(lines)
    case None => Finish([])
    case Some(content) => Examine(content, parseInt)
  }

  /** The printed message and the exit status of one run on the given input lines. */
  function Main(lines: seq<string>, parseInt: string -> Option<int>): (string, int) {
    var v := Scan(lines, parseInt);
    (Message(v), ExitCode(v))
  }

  // ---------------------------------------------------------------------
  // Properties of main()
  // ---------------------------------------------------------------------

  /** The four outcomes of a bracketed line, each with its exact condition; "no array" is never one of them. */
  lemma ExamineCases(content: string, parseInt: string -> Option<int>)
    ensures Examine(content, parseInt) == EmptyList <==> AllSpace(content)
    ensures Examine(content, parseInt) == ParseError
      <==> !AllSpace(content) && ParseElements(content, parseInt).None?
    ensures Examine(content, parseInt) == SortedOk
      <==> !AllSpace(content) && ParseElements(content, parseInt).Some? && IsSorted(ParseElements(content, parseInt).value)
    ensures Examine(content, parseInt) == NotSorted
      <==> !AllSpace(content) && ParseElements(content, parseInt).Some? && !IsSorted(ParseElements(content, parseInt).value)
    ensures Examine(content, parseInt) != NoArray
  {
    StripEmptyIff(content);
  }

  /** Lines before the first bracketed one are skipped, and that line alone is examined. */
  lemma {:induction false} FirstBracketedDecides(lines: seq<string>, k: nat)
    requires k < |lines| && IsBracketed(Strip(lines[k]))
    requires forall j :: 0 <= j < k ==> !IsBracketed(Strip(lines[j]))
    ensures FirstArray(lines) == Some(Inner(Strip(lines[k])))
  {
    if k > 0 {
      var rest := lines[1..];
      assert !IsBracketed(Strip(lines[0]));
      assert FirstArray(lines) == FirstArray(rest);
      forall j | 0 <= j < k - 1 ensures !IsBracketed(Strip(rest[j])) {
        assert rest[j] == lines[j + 1];
      }
      assert rest[k - 1] == lines[k];
      FirstBracketedDecides(rest, k - 1);
    }
  }

  /** The verdict is the verdict on the first bracketed line, whatever follows it. */
  lemma FirstBracketedLineDecidesVerdict(lines: seq<string>, more: seq<string>, parseInt: string -> Option<int>, k: nat)
    requires k < |lines| && IsBracketed(Strip(lines[k]))
    requires forall j :: 0 <= j < k ==> !IsBracketed(Strip(lines[j]))
    ensures Scan(lines, parseInt) == Examine(Inner(Strip(lines[k])), parseInt)
    ensures Scan(lines + more, parseInt) == Scan(lines, parseInt)
  {
    FirstBracketedDecides(lines, k);
    assert forall j :: 0 <= j <= k ==> (lines + more)[j] == lines[j];
    FirstBracketedDecides(lines + more, k);
  }

  /** The search comes back empty exactly when no line is a bracketed list. */
  lemma {:induction false} FirstArrayNoneIff(lines: seq<string>)
    ensures FirstArray(lines) == None <==> forall j :: 0 <= j < |lines| ==> !IsBracketed(Strip(lines[j]))
  {
    if lines != [] {
      FirstArrayNoneIff(lines[1..]);
      assert forall j :: 1 <= j < |lines| ==> lines[1..][j - 1] == lines[j];
    }
  }

  /** "No array found" is reported exactly when no line is a bracketed list: the `if not data` test is reached with an empty list only then. */
  lemma NoArrayIff(lines: seq<string>, parseInt: string -> Option<int>)
    ensures Scan(lines, parseInt) == NoArray <==> forall j :: 0 <= j < |lines| ==> !IsBracketed(Strip(lines[j]))
  {
    FirstArrayNoneIff(lines);
    if FirstArray(lines).Some? {
      ExamineCases(FirstArray(lines).value, parseInt);
    }
  }

  /** The exit status is 1 exactly for the two error verdicts. */
  lemma ExitCodeIff(lines: seq<string>, parseInt: string -> Option<int>)
    ensures Main(lines, parseInt).1 == 1 <==> Scan(lines, parseInt) in {ParseError, NoArray}
    ensures Main(lines, parseInt).1 == 0 <==> Scan(lines, parseInt) in {EmptyList, SortedOk, NotSorted}
  {
  }
}
