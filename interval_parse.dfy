/**
 * `Interval::from_str` and the `Display` text it reads back.  Values are
 * read by a caller-supplied parser (`T::from_str`); the integer parser the
 * library's tests rely on is modelled by `ParseInt`.  Offsets count
 * characters rather than UTF-8 bytes, which changes nothing since every
 * offset used is one the scan itself produced.
 */
module IntervalParse {
  import opened Wrappers
  import opened MachineInts
  import opened Bounds
  import opened Intervals

  datatype ParseError<E> = InvalidInput | BoundError(error: E)

  /** The characters Rust's `str::trim` removes: the Unicode White_Space property. */
  predicate IsWhitespace(c: char) {
    ('\t' <= c <= '\r') || c == ' ' || c == '\U{0085}' || c == '\U{00A0}' || c == '\U{1680}'
    || ('\U{2000}' <= c <= '\U{200A}') || c == '\U{2028}' || c == '\U{2029}'
    || c == '\U{202F}' || c == '\U{205F}' || c == '\U{3000}'
  }

  /** Number of leading white-space characters. */
  function LeadingSpace(s: string): (n: nat)
    ensures n <= |s|
    ensures forall k :: 0 <= k < n ==> IsWhitespace(s[k])
    ensures n < |s| ==> !IsWhitespace(s[n])
  {
    if s == [] || !IsWhitespace(s[0]) then 0 else 1 + LeadingSpace(s[1..])
  }

  /** Number of trailing white-space characters. */
  function TrailingSpace(s: string): (n: nat)
    ensures n <= |s|
    ensures forall k :: |s| - n <= k < |s| ==> IsWhitespace(s[k])
    ensures n < |s| ==> !IsWhitespace(s[|s| - 1 - n])
  {
    if s == [] || !IsWhitespace(s[|s| - 1]) then 0 else 1 + TrailingSpace(s[..|s| - 1])
  }

  /** `str::trim`: the slice left once white space is removed at both ends. */
  function Trim(s: string): (r: string)
    ensures r == "" <==> forall k :: 0 <= k < |s| ==> IsWhitespace(s[k])
    ensures r != "" ==> !IsWhitespace(r[0]) && !IsWhitespace(r[|r| - 1])
    ensures LeadingSpace(s) + |r| <= |s| && r == s[LeadingSpace(s)..LeadingSpace(s) + |r|]
    ensures forall k :: LeadingSpace(s) + |r| <= k < |s| ==> IsWhitespace(s[k])
  {
    var i := LeadingSpace(s);
    var t := s[i..];
    var j := TrailingSpace(t);
    assert forall k :: i + (|t| - j) <= k < |s| ==> s[k] == t[k - i];
    t[..|t| - j]
  }

  /** Trimming ignores any white space added in front. */
  lemma {:induction false} TrimSkipsLeadingSpace(c: char, s: string)
    requires IsWhitespace(c)
    ensures Trim([c] + s) == Trim(s)
  {
    assert ([c] + s)[1..] == s;
    assert LeadingSpace([c] + s) == 1 + LeadingSpace(s);
    assert ([c] + s)[LeadingSpace([c] + s)..] == s[LeadingSpace(s)..];
  }

  /** What the scan has seen so far: bounds read, closing bracket, start of the current field. */
  datatype ScanState = ScanState(lo: Option<int>, up: Option<int>, upIncl: char, start: Option<nat>)

  function InitialState(): ScanState { ScanState(None, None, ']', None) }

  /** Reading one field `s[start..k]`: an empty or blank field stands for an unbounded side. */
  function Field<E>(s: string, parse: string -> Result<int, E>, start: Option<nat>, k: nat):
    Result<Option<int>, ParseError<E>>
    requires k <= |s| && (start.Some? ==> start.value <= k)
  {
    match start
    case None => Ok(None)
    case Some(offs) =>
      var t := Trim(s[offs..k]);
      if t == "" then Ok(None)
      else match parse(t)
        case Ok(v) => Ok(Some(v))
        case Err(e) => Err(BoundError(e))
  }

  predicate StartBefore(st: ScanState, k: nat) {
    st.start.Some? ==> st.start.value < k
  }

  /** One step of the scan, at the character of offset k. */
  function ScanStep<E>(s: string, parse: string -> Result<int, E>, st: ScanState, k: nat):
    (r: Result<ScanState, ParseError<E>>)
    requires k < |s| && StartBefore(st, k)
    ensures r.Ok? ==> StartBefore(r.value, k + 1)
  {
    var c := s[k];
    if c == ',' then
      match Field(s, parse, st.start, k)
      case Err(e) => Err(e)
      case Ok(lo) => Ok(st.(lo := lo, start := None))
    else if c == ']' || c == ')' then
      match Field(s, parse, st.start, k)
      case Err(e) => Err(e)
      case Ok(up) => Ok(st.(up := up, upIncl := c))
    else if st.start.None? then Ok(st.(start := Some(k)))
    else Ok(st)
  }

  /** The scan of `s[k..]`, stopping at the first error. */
  function ScanFrom<E>(s: string, parse: string -> Result<int, E>, st: ScanState, k: nat):
    Result<ScanState, ParseError<E>>
    requires k <= |s| && StartBefore(st, k)
    decreases |s| - k
  {
    if k == |s| then Ok(st)
    else match ScanStep(s, parse, st, k)
      case Err(e) => Err(e)
      case Ok(st') => ScanFrom(s, parse, st', k + 1)
  }

  /** The closing match of `from_str`: the nine accepted shapes. */
  function Build<E>(loIncl: char, st: ScanState): Result<Interval, ParseError<E>> {
    match (loIncl, st.lo, st.up, st.upIncl)
    case ('[', Some(lo), Some(up), ']') => Ok(ClosedClosed(lo, up))
    case ('[', Some(lo), Some(up), ')') => Ok(ClosedOpen(lo, up))
    case ('(', Some(lo), Some(up), ')') => Ok(OpenOpen(lo, up))
    case ('(', Some(lo), Some(up), ']') => Ok(OpenClosed(lo, up))
    case ('(', Some(lo), None, ')') => Ok(OpenUnbounded(lo))
    case ('[', Some(lo), None, ')') => Ok(ClosedUnbounded(lo))
    case ('(', None, Some(up), ')') => Ok(UnboundedOpen(up))
    case ('(', None, Some(up), ']') => Ok(UnboundedClosed(up))
    case ('(', None, None, ')') => Ok(DoublyUnbounded())
    case _ => Err(InvalidInput)
  }

  /**
   * `from_str` as a function of the whole text.  The source takes the first
   * character unconditionally and panics on the empty string.
   */
  function FromStrSpec<E>(s: string, parse: string -> Result<int, E>): Result<Interval, ParseError<E>>
    requires |s| > 0
  {
    if s == "empty" then Ok(Empty())
    else match ScanFrom(s, parse, InitialState(), 1)
      case Err(e) => Err(e)
      case Ok(st) => Build(s[0], st)
  }

  /** `from_str`: one pass over the characters after the first. */
  method FromStr<E>(s: string, parse: string -> Result<int, E>) returns (r: Result<Interval, ParseError<E>>)
    requires |s| > 0
    ensures r == FromStrSpec(s, parse)
  {
    if s == "empty" {
      return Ok(Empty());
    }
    var loIncl := s[0];
    var lo: Option<int> := None;
    var up: Option<int> := None;
    var upIncl := ']';
    var start: Option<nat> := None;
    var k := 1;
    while k < |s|
      invariant 1 <= k <= |s|
      invariant StartBefore(ScanState(lo, up, upIncl, start), k)
      invariant ScanFrom(s, parse, InitialState(), 1) == ScanFrom(s, parse, ScanState(lo, up, upIncl, start), k)
    {
      var c := s[k];
      if c == ',' {
        var f := Field(s, parse, start, k);
        if f.Err? {
          return Err(f.error);
        }
        lo := f.value;
        start := None;
      } else if c == ']' || c == ')' {
        var f := Field(s, parse, start, k);
        if f.Err? {
          return Err(f.error);
        }
        up := f.value;
        upIncl := c;
      } else if start.None? {
        start := Some(k);
      }
      k := k + 1;
    }
    r := Build(loIncl, ScanState(lo, up, upIncl, start));
  }

  /** `Display`: the text `from_str` reads back ("empty" for an empty interval). */
  function Display(i: Interval, show: int -> string): string {
    if i.IsEmpty() then "empty" else LeftText(i.lower, show) + RightText(i.upper, show)
  }

  /** What `Display` writes for a lower bound; an empty interval never reaches the `RightUnbounded` case. */
  function LeftText(b: Bound, show: int -> string): string {
    match b
    case LeftUnbounded => "("
    case LeftOf(p) => "[" + show(p)
    case RightOf(p) => "(" + show(p)
    case RightUnbounded => ""
  }

  /** What `Display` writes for an upper bound; an empty interval never reaches the `LeftUnbounded` case. */
  function RightText(b: Bound, show: int -> string): string {
    match b
    case LeftUnbounded => ""
    case LeftOf(p) => ", " + show(p) + ")"
    case RightOf(p) => ", " + show(p) + "]"
    case RightUnbounded => ",)"
  }

  /** Text that holds none of the characters the scan stops at. */
  predicate Plain(t: string) {
    forall k :: 0 <= k < |t| ==> t[k] != ',' && t[k] != ']' && t[k] != ')'
  }

  /** What a value printer and a value parser must satisfy at a bound value for intervals to round-trip. */
  predicate PrintsBack<E>(show: int -> string, parse: string -> Result<int, E>, p: int) {
    Plain(show(p)) && Trim(show(p)) != "" && parse(Trim(show(p))) == Ok(p)
  }

  /** Scanning plain text only records where the current field starts. */
  lemma {:induction false} ScanPlain<E>(s: string, parse: string -> Result<int, E>, st: ScanState, k: nat, m: nat)
    requires k <= m <= |s| && StartBefore(st, k)
    requires forall j :: k <= j < m ==> s[j] != ',' && s[j] != ']' && s[j] != ')'
    ensures var st' := if st.start.None? && k < m then st.(start := Some(k)) else st;
            StartBefore(st', m) && ScanFrom(s, parse, st, k) == ScanFrom(s, parse, st', m)
    decreases m - k
  {
    if k < m {
      var st1 := if st.start.None? then st.(start := Some(k)) else st;
      assert ScanStep(s, parse, st, k) == Ok(st1);
      ScanPlain(s, parse, st1, k + 1, m);
    }
  }

  /** Reading back a closing part " q)" or " q]" that starts at offset n + 1. */
  lemma {:induction false} ScanClosing<E>(s: string, parse: string -> Result<int, E>, t: string,
                                          q: int, c: char, lo: Option<int>, n: nat)
    requires Plain(t) && Trim(t) != "" && parse(Trim(t)) == Ok(q)
    requires c == ']' || c == ')'
    requires n + 1 <= |s| && s[n + 1..] == " " + t + [c]
    ensures ScanFrom(s, parse, ScanState(lo, None, ']', None), n + 1) ==
            Ok(ScanState(lo, Some(q), c, Some(n + 1)))
  {
    var st := ScanState(lo, None, ']', None);
    var m := n + 2 + |t|;
    assert |s| == m + 1;
    assert s[n + 1..m] == " " + t;
    assert s[m] == c;
    forall j | n + 1 <= j < m ensures s[j] != ',' && s[j] != ']' && s[j] != ')' {
      if j > n + 1 { assert s[j] == t[j - n - 2]; }
    }
    ScanPlain(s, parse, st, n + 1, m);
    TrimSkipsLeadingSpace(' ', t);
    var st1 := st.(start := Some(n + 1));
    assert Field(s, parse, Some(n + 1), m) == Ok(Some(q));
    assert ScanStep(s, parse, st1, m) == Ok(st1.(up := Some(q), upIncl := c));
  }

  /** Reading back the right-hand part ", q)", ", q]" or ",)" whose comma is at offset n. */
  lemma {:induction false} ScanRight<E>(s: string, parse: string -> Result<int, E>, show: int -> string,
                                        upper: Bound, lo: Option<int>, n: nat)
    requires !upper.LeftUnbounded?
    requires upper.Value().Some? ==> PrintsBack(show, parse, upper.point)
    requires n <= |s| && s[n..] == RightText(upper, show)
    ensures ScanFrom(s, parse, ScanState(lo, None, ']', None), n + 1) ==
            Ok(ScanState(lo, upper.Value(), if upper.RightOf? then ']' else ')',
                         if upper.RightUnbounded? then None else Some(n + 1)))
  {
    var st := ScanState(lo, None, ']', None);
    assert s[n + 1..] == RightText(upper, show)[1..];
    if upper.RightUnbounded? {
      assert s[n + 1] == ')' && |s| == n + 2;
      assert ScanStep(s, parse, st, n + 1) == Ok(st.(up := None, upIncl := ')'));
    } else {
      ScanClosing(s, parse, show(upper.point), upper.point, if upper.RightOf? then ']' else ')', lo, n);
    }
  }

  /** Reading back the left-hand part "(", "[p" or "(p" up to the comma at offset n. */
  lemma {:induction false} ScanLeft<E>(s: string, parse: string -> Result<int, E>, show: int -> string, lower: Bound)
    requires !lower.RightUnbounded?
    requires lower.Value().Some? ==> PrintsBack(show, parse, lower.point)
    requires |LeftText(lower, show)| < |s| && s[..|LeftText(lower, show)|] == LeftText(lower, show)
    requires s[|LeftText(lower, show)|] == ','
    ensures var n := |LeftText(lower, show)|;
            1 <= n && ScanFrom(s, parse, InitialState(), 1) ==
            ScanFrom(s, parse, ScanState(lower.Value(), None, ']', None), n + 1)
    ensures s[0] == (if lower.LeftOf? then '[' else '(')
  {
    var n := |LeftText(lower, show)|;
    assert s[0] == LeftText(lower, show)[0];
    if lower.LeftUnbounded? {
      assert n == 1;
      assert ScanStep(s, parse, InitialState(), 1) == Ok(ScanState(None, None, ']', None));
    } else {
      var t := show(lower.point);
      assert LeftText(lower, show)[1..] == t;
      assert s[1..n] == t;
      forall j | 1 <= j < n ensures s[j] != ',' && s[j] != ']' && s[j] != ')' {
        assert s[j] == t[j - 1];
      }
      ScanPlain(s, parse, InitialState(), 1, n);
      var st := InitialState().(start := Some(1));
      assert Field(s, parse, Some(1), n) == Ok(Some(lower.point));
      assert ScanStep(s, parse, st, n) == Ok(ScanState(Some(lower.point), None, ']', None));
    }
  }

  /** The closing match rebuilds every nonempty interval from its opening bracket and scanned state. */
  lemma BuildShape<E>(i: Interval, start: Option<nat>)
    requires !i.IsEmpty()
    ensures Build<E>(if i.lower.LeftOf? then '[' else '(',
                     ScanState(i.lower.Value(), i.upper.Value(), if i.upper.RightOf? then ']' else ')', start)) == Ok(i)
  {
  }

  /** `from_str` reads back what `Display` writes; an empty interval comes back as `empty()`. */
  lemma {:induction false} DisplayRoundTrip<E>(i: Interval, show: int -> string, parse: string -> Result<int, E>)
    requires i.lower.Value().Some? ==> PrintsBack(show, parse, i.lower.point)
    requires i.upper.Value().Some? ==> PrintsBack(show, parse, i.upper.point)
    ensures |Display(i, show)| > 0
    ensures i.IsEmpty() ==> FromStrSpec(Display(i, show), parse) == Ok(Empty())
    ensures !i.IsEmpty() ==> FromStrSpec(Display(i, show), parse) == Ok(i)
  {
    if !i.IsEmpty() {
      var s := Display(i, show);
      var left, right := LeftText(i.lower, show), RightText(i.upper, show);
      var n := |left|;
      assert s == left + right && s[..n] == left && s[n..] == right;
      assert !i.lower.RightUnbounded? && !i.upper.LeftUnbounded?;
      assert |right| >= 2 && right[0] == ',' && s[n] == ',';
      ScanLeft(s, parse, show, i.lower);
      assert s != "empty";
      ScanRight(s, parse, show, i.upper, i.lower.Value(), n);
      var start := if i.upper.RightUnbounded? then None else Some(n + 1);
      var last := ScanState(i.lower.Value(), i.upper.Value(), if i.upper.RightOf? then ']' else ')', start);
      assert ScanFrom(s, parse, InitialState(), 1) == Ok(last);
      BuildShape<E>(i, start);
      assert Build<E>(s[0], last) == Ok(i);
    }
  }

  // The integer parser of Rust's `str::parse`, used by the library's tests.

  datatype IntErrorKind = EmptyText | InvalidDigit | PosOverflow | NegOverflow

  predicate IsDigit(c: char) { '0' <= c <= '9' }

  predicate AllDigits(s: string) { forall k :: 0 <= k < |s| ==> IsDigit(s[k]) }

  function DigitsValue(s: string): nat
    requires AllDigits(s)
  {
    if s == [] then 0 else 10 * DigitsValue(s[..|s| - 1]) + (s[|s| - 1] as int - '0' as int)
  }

  /** The value of a digit string with a sign applied. */
  function WithSign(negative: bool, n: nat): int {
    if negative then -(n as int) else n as int
  }

  /**
   * The digit loop of `from_str_radix`, from left to right: the first
   * character that is not a digit, or the first step whose product by ten or
   * whose sum leaves the type, decides the error.  A string is scanned as
   * its prefix followed by its last character, so the errors of the prefix
   * come first.
   */
  function ScanDigits(k: IntKind, negative: bool, s: string): Result<int, IntErrorKind>
    decreases |s|
  {
    if s == "" then Ok(0)
    else match ScanDigits(k, negative, s[..|s| - 1])
      case Err(e) => Err(e)
      case Ok(acc) =>
        var c := s[|s| - 1];
        var overflow := if negative then NegOverflow else PosOverflow;
        if !IsDigit(c) then Err(InvalidDigit)
        else if !k.InRange(10 * acc) then Err(overflow)
        else
          var d := c as int - '0' as int;
          var v := if negative then 10 * acc - d else 10 * acc + d;
          if !k.InRange(v) then Err(overflow) else Ok(v)
  }

  /** `<integer type>::from_str`: an optional sign, then at least one decimal digit read by `ScanDigits`. */
  function ParseInt(k: IntKind, s: string): Result<int, IntErrorKind> {
    if s == "" then Err(EmptyText)
    else
      var negative := s[0] == '-' && k.Signed();
      var digits := if s[0] == '+' || negative then s[1..] else s;
      if digits == "" then Err(InvalidDigit)
      else ScanDigits(k, negative, digits)
  }

  lemma AllDigitsSnoc(s: string)
    requires s != ""
    ensures AllDigits(s) <==> AllDigits(s[..|s| - 1]) && IsDigit(s[|s| - 1])
  {
    var p := s[..|s| - 1];
    if AllDigits(p) && IsDigit(s[|s| - 1]) {
      forall j | 0 <= j < |s| ensures IsDigit(s[j]) {
        if j < |p| { assert s[j] == p[j]; }
      }
    }
  }

  /** What the digit loop accepts is a digit string whose signed value fits the type. */
  lemma {:induction false} ScanDigitsSound(k: IntKind, negative: bool, s: string, v: int)
    requires ScanDigits(k, negative, s) == Ok(v)
    ensures AllDigits(s) && v == WithSign(negative, DigitsValue(s)) && k.InRange(v)
    decreases |s|
  {
    if s == "" {
      assert k.MinValue() <= 0 <= k.MaxValue();
    } else {
      var p := s[..|s| - 1];
      AllDigitsSnoc(s);
      var a :| ScanDigits(k, negative, p) == Ok(a);
      ScanDigitsSound(k, negative, p, a);
    }
  }

  /** A digit string whose signed value fits the type is read as that value. */
  lemma {:induction false} ScanDigitsComplete(k: IntKind, negative: bool, s: string)
    requires AllDigits(s) && k.InRange(WithSign(negative, DigitsValue(s)))
    ensures ScanDigits(k, negative, s) == Ok(WithSign(negative, DigitsValue(s)))
    decreases |s|
  {
    if s != "" {
      var p := s[..|s| - 1];
      AllDigitsSnoc(s);
      assert DigitsValue(s) == 10 * DigitsValue(p) + (s[|s| - 1] as int - '0' as int);
      // The prefix, and ten times it, lie between 0 and the full value.
      assert k.MinValue() <= 0 <= k.MaxValue();
      assert k.InRange(WithSign(negative, DigitsValue(p)));
      ScanDigitsComplete(k, negative, p);
    }
  }

  /** The digit loop succeeds exactly on digit strings whose signed value fits the type, and gives that value. */
  lemma ScanDigitsMeaning(k: IntKind, negative: bool, s: string, v: int)
    ensures ScanDigits(k, negative, s) == Ok(v) <==>
            AllDigits(s) && v == WithSign(negative, DigitsValue(s)) && k.InRange(v)
  {
    if ScanDigits(k, negative, s) == Ok(v) {
      ScanDigitsSound(k, negative, s, v);
    }
    if AllDigits(s) && v == WithSign(negative, DigitsValue(s)) && k.InRange(v) {
      ScanDigitsComplete(k, negative, s);
    }
  }

  /** The digit loop reports the first error it meets: overflow before a later bad character. */
  lemma ParseIntErrorOrderExamples()
    ensures ParseInt(U8, "300x") == Err(PosOverflow)
    ensures ParseInt(I8, "-300x") == Err(NegOverflow)
    ensures ParseInt(U8, "30x") == Err(InvalidDigit)
  {
    assert "300x"[..3] == "300" && "300"[..2] == "30" && "30x"[..2] == "30";
    assert "30"[..1] == "3" && "3"[..0] == "";
    assert DigitsValue("30") == 30;
    ScanDigitsMeaning(U8, false, "30", 30);
    ScanDigitsMeaning(I8, true, "30", -30);
    assert "-300x"[1..] == "300x";
  }

  /** Signs: an unsigned type rejects `-`, a lone sign is no number, and `i8` reads its least value. */
  lemma ParseIntSignExamples()
    ensures ParseInt(U8, "-1") == Err(InvalidDigit)
    ensures ParseInt(U8, "+") == Err(InvalidDigit)
    ensures ParseInt(I8, "-128") == Ok(-128)
  {
    assert "-1"[..1] == "-" && "-"[..0] == "";
    assert "-128"[1..] == "128" && "128"[..2] == "12" && "12"[..1] == "1" && "1"[..0] == "";
    assert DigitsValue("128") == 128;
    ScanDigitsMeaning(I8, true, "128", -128);
  }

  /** The integer parser of a machine integer type, as the value parser `from_str` is given. */
  function ParserOf(k: IntKind): string -> Result<int, IntErrorKind> {
    s => ParseInt(k, s)
  }

  /** Decimal text of a natural number. */
  function ShowNat(n: nat): (r: string)
    ensures |r| > 0 && AllDigits(r) && DigitsValue(r) == n
    ensures r[0] != '-' && r[0] != '+' && Plain(r) && !IsWhitespace(r[0]) && !IsWhitespace(r[|r| - 1])
    decreases n
  {
    var d := [(n % 10 + '0' as int) as char];
    if n < 10 then d
    else
      var r := ShowNat(n / 10) + d;
      assert r[..|r| - 1] == ShowNat(n / 10);
      r
  }

  /** Decimal text of an integer, as `Display` writes it. */
  function ShowInt(x: int): (r: string)
    ensures |r| > 0
  {
    if x < 0 then "-" + ShowNat(-x) else ShowNat(x)
  }

  /** Text with no white space at either end is its own trim. */
  lemma TrimUnspaced(r: string)
    requires r != "" && !IsWhitespace(r[0]) && !IsWhitespace(r[|r| - 1])
    ensures Trim(r) == r
  {
    assert LeadingSpace(r) == 0;
    assert TrailingSpace(r[0..]) == 0;
  }

  /** Unsigned decimal text is read as its value, when that value is in range. */
  lemma ParseDigits(k: IntKind, r: string)
    requires r != "" && AllDigits(r) && k.InRange(DigitsValue(r))
    ensures ParseInt(k, r) == Ok(DigitsValue(r))
  {
    assert IsDigit(r[0]);
    ScanDigitsMeaning(k, false, r, DigitsValue(r));
  }

  /** A minus sign and decimal text are read as the negated value by a signed type. */
  lemma ParseNegDigits(k: IntKind, t: string, r: string)
    requires t != "" && AllDigits(t) && r == "-" + t && k.Signed() && k.InRange(-(DigitsValue(t) as int))
    ensures ParseInt(k, r) == Ok(-(DigitsValue(t) as int))
  {
    assert r[0] == '-' && r[1..] == t;
    ScanDigitsMeaning(k, true, t, -(DigitsValue(t) as int));
  }

  /** Every in-range integer reads back from its decimal text. */
  lemma {:induction false} ShowIntRoundTrip(k: IntKind, x: int)
    requires k.InRange(x)
    ensures Plain(ShowInt(x)) && Trim(ShowInt(x)) == ShowInt(x)
    ensures ParseInt(k, ShowInt(x)) == Ok(x)
  {
    var r := ShowInt(x);
    if x < 0 {
      var t := ShowNat(-x);
      assert r == "-" + t;
      assert r[1..] == t && r[|r| - 1] == t[|t| - 1];
      assert forall j :: 1 <= j < |r| ==> r[j] == t[j - 1];
      TrimUnspaced(r);
      assert k.Signed();
      ParseNegDigits(k, t, r);
    } else {
      TrimUnspaced(r);
      ParseDigits(k, r);
    }
  }

  /** Intervals of a machine integer type read back from the text `Display` writes. */
  lemma MachineDisplayRoundTrip(k: IntKind, i: Interval)
    requires i.lower.Value().Some? ==> k.InRange(i.lower.point)
    requires i.upper.Value().Some? ==> k.InRange(i.upper.point)
    ensures !i.IsEmpty() ==> FromStrSpec(Display(i, ShowInt), ParserOf(k)) == Ok(i)
  {
    if i.lower.Value().Some? { ShowIntRoundTrip(k, i.lower.point); }
    if i.upper.Value().Some? { ShowIntRoundTrip(k, i.upper.point); }
    DisplayRoundTrip(i, ShowInt, ParserOf(k));
  }

  /** The texts spelled out in the library's display test, for integer bounds. */
  lemma DisplayExamples()
    ensures Display(ClosedClosed(1, 4), ShowInt) == "[1, 4]"
    ensures Display(ClosedOpen(1, 4), ShowInt) == "[1, 4)"
    ensures Display(OpenClosed(1, 4), ShowInt) == "(1, 4]"
    ensures Display(OpenOpen(1, 4), ShowInt) == "(1, 4)"
    ensures Display(ClosedUnbounded(1), ShowInt) == "[1,)"
    ensures Display(OpenUnbounded(1), ShowInt) == "(1,)"
    ensures Display(UnboundedClosed(1), ShowInt) == "(, 1]"
    ensures Display(UnboundedOpen(1), ShowInt) == "(, 1)"
    ensures Display(DoublyUnbounded(), ShowInt) == "(,)"
    ensures Display(Empty(), ShowInt) == "empty"
  {
    assert ShowInt(1) == "1" && ShowInt(4) == "4";
  }

  /** The value of one field on its own: blank stands for an unbounded side. */
  function FieldText<E>(f: string, parse: string -> Result<int, E>): (r: Result<Option<int>, ParseError<E>>)
    ensures r == Ok(None) <==> forall k :: 0 <= k < |f| ==> IsWhitespace(f[k])
  {
    var t := Trim(f);
    if t == "" then Ok(None)
    else match parse(t)
      case Ok(v) => Ok(Some(v))
      case Err(e) => Err(BoundError(e))
  }

  /** Scanning a plain field up to the separator or bracket at offset m reads that field's value. */
  lemma {:induction false} ScanField<E>(s: string, parse: string -> Result<int, E>, st: ScanState, k: nat, m: nat)
    requires k <= m < |s| && st.start.None?
    requires Plain(s[k..m]) && (s[m] == ',' || s[m] == ']' || s[m] == ')')
    ensures var st' := if k < m then st.(start := Some(k)) else st;
            ScanFrom(s, parse, st, k) ==
            match FieldText(s[k..m], parse)
            case Err(e) => Err(e)
            case Ok(v) =>
              if s[m] == ',' then ScanFrom(s, parse, st.(lo := v), m + 1)
              else ScanFrom(s, parse, st'.(up := v, upIncl := s[m]), m + 1)
  {
    forall j | k <= j < m ensures s[j] != ',' && s[j] != ']' && s[j] != ')' {
      assert s[j] == s[k..m][j - k];
    }
    ScanPlain(s, parse, st, k, m);
    var st' := if k < m then st.(start := Some(k)) else st;
    if k == m {
      assert Field(s, parse, None, m) == FieldText(s[k..m], parse);
    } else {
      assert Field(s, parse, Some(k), m) == FieldText(s[k..m], parse);
    }
  }

  /** The scan of "f1,f2]" or "f1,f2)" (after the opening character) reads the two fields. */
  function TwoFields<E>(f1: string, f2: string, c: char, parse: string -> Result<int, E>): Result<ScanState, ParseError<E>> {
    match FieldText(f1, parse)
    case Err(e) => Err(e)
    case Ok(lo) =>
      match FieldText(f2, parse)
      case Err(e) => Err(e)
      case Ok(up) => Ok(ScanState(lo, up, c, if f2 == "" then None else Some(|f1| + 2)))
  }

  lemma {:induction false} ScanTwoFields<E>(s: string, f1: string, f2: string, c: char,
                                            parse: string -> Result<int, E>)
    requires Plain(f1) && Plain(f2) && (c == ']' || c == ')')
    requires |s| == |f1| + |f2| + 3
    requires s[1..1 + |f1|] == f1 && s[1 + |f1|] == ',' && s[|f1| + 2..|s| - 1] == f2 && s[|s| - 1] == c
    ensures ScanFrom(s, parse, InitialState(), 1) == TwoFields(f1, f2, c, parse)
  {
    var n := 1 + |f1|;
    var m := |s| - 1;
    ScanField(s, parse, InitialState(), 1, n);
    match FieldText(f1, parse)
    case Err(e) =>
    case Ok(lo) =>
      var st := InitialState().(lo := lo);
      assert ScanFrom(s, parse, InitialState(), 1) == ScanFrom(s, parse, st, n + 1);
      ScanField(s, parse, st, n + 1, m);
      match FieldText(f2, parse)
      case Err(e) =>
      case Ok(up) =>
        var st' := if n + 1 < m then st.(start := Some(n + 1)) else st;
        assert s[m] != ',';
        assert ScanFrom(s, parse, st, n + 1) == ScanFrom(s, parse, st'.(up := up, upIncl := c), m + 1);
  }

  /**
   * `from_str` on a text made of an opening character, a field, a comma, a
   * field and a closing bracket: the two fields are read independently and
   * the closing match decides.
   */
  lemma {:induction false} FromStrTwoFields<E>(o: char, f1: string, f2: string, c: char,
                                               parse: string -> Result<int, E>)
    requires Plain(f1) && Plain(f2) && (c == ']' || c == ')')
    ensures FromStrSpec([o] + f1 + [','] + f2 + [c], parse) ==
            match FieldText(f1, parse)
            case Err(e) => Err(e)
            case Ok(lo) =>
              match FieldText(f2, parse)
              case Err(e) => Err(e)
              case Ok(up) => Build(o, ScanState(lo, up, c, None))
  {
    var s := [o] + f1 + [','] + f2 + [c];
    var n := 1 + |f1|;
    assert s[0] == o && s[1..n] == f1 && s[n] == ',' && s[n + 1..|s| - 1] == f2 && s[|s| - 1] == c;
    assert s != "empty" by { assert s[n] == ','; }
    ScanTwoFields(s, f1, f2, c, parse);
    var scanned := TwoFields(f1, f2, c, parse);
    assert FromStrSpec(s, parse) == if scanned.Err? then Err(scanned.error) else Build(o, scanned.value);
    if scanned.Ok? {
      BuildIgnoresStart<E>(o, scanned.value);
    }
  }

  /** The closing match does not look at where the last field started. */
  lemma BuildIgnoresStart<E>(o: char, st: ScanState)
    ensures Build<E>(o, st) == Build<E>(o, st.(start := None))
  {
  }

  /** Decimal digits wrapped in blanks trim to the digits. */
  lemma {:induction false} FieldOfPaddedDigits(lead: string, d: string, trail: string)
    requires forall k :: 0 <= k < |lead| ==> IsWhitespace(lead[k])
    requires forall k :: 0 <= k < |trail| ==> IsWhitespace(trail[k])
    requires d != "" && !IsWhitespace(d[0]) && !IsWhitespace(d[|d| - 1])
    ensures Trim(lead + d + trail) == d
  {
    var s := lead + d + trail;
    assert !IsWhitespace(s[|lead|]);
    assert LeadingSpace(s) == |lead|;
    assert !IsWhitespace(s[|lead| + |d| - 1]);
    assert forall k :: |lead| + |d| <= k < |s| ==> IsWhitespace(s[k]);
    assert |Trim(s)| == |d|;
  }

  /** A field holding one decimal digit, possibly padded, as an unsigned integer field. */
  lemma DigitField(k: IntKind, lead: string, d: char, trail: string, f: string)
    requires forall j :: 0 <= j < |lead| ==> IsWhitespace(lead[j])
    requires forall j :: 0 <= j < |trail| ==> IsWhitespace(trail[j])
    requires IsDigit(d) && f == lead + [d] + trail
    ensures FieldText(f, ParserOf(k)) == Ok(Some(d as int - '0' as int))
  {
    FieldOfPaddedDigits(lead, [d], trail);
    assert DigitsValue([d]) == d as int - '0' as int by { assert [d][..0] == []; }
    assert k.MinValue() <= 0 && 9 < k.MaxValue();
    ParseDigits(k, [d]);
    assert ParseInt(k, [d]) == Ok(d as int - '0' as int);
    assert ParserOf(k)([d]) == ParseInt(k, [d]);
  }

  predicate Spaces(t: string) { forall j :: 0 <= j < |t| ==> t[j] == ' ' }

  /** The characters of an optional digit. */
  function DigitText(d: Option<char>): string {
    if d.Some? then [d.value] else ""
  }

  /** The value of an optional decimal digit. */
  function DigitValue(d: Option<char>): Option<int> {
    if d.Some? then Some(d.value as int - '0' as int) else None
  }

  /** A field of spaces around at most one decimal digit is plain, and reads as that digit or as unbounded. */
  lemma PaddedField(k: IntKind, lead: string, d: Option<char>, trail: string)
    requires Spaces(lead) && Spaces(trail) && (d.Some? ==> IsDigit(d.value))
    ensures Plain(lead + DigitText(d) + trail)
    ensures FieldText(lead + DigitText(d) + trail, ParserOf(k)) == Ok(DigitValue(d))
  {
    var f := lead + DigitText(d) + trail;
    if d.Some? {
      forall j | 0 <= j < |f| ensures f[j] == ' ' || f[j] == d.value {
        if j < |lead| {
          assert f[j] == lead[j];
        } else if j > |lead| {
          assert f[j] == trail[j - |lead| - 1];
        }
      }
      DigitField(k, lead, d.value, trail, f);
    } else {
      assert f == lead + trail;
      forall j | 0 <= j < |f| ensures f[j] == ' ' {
        if j < |lead| {
          assert f[j] == lead[j];
        } else {
          assert f[j] == trail[j - |lead|];
        }
      }
    }
  }

  /**
   * `from_str` on an opening character, a padded digit or a blank, a comma,
   * a padded digit or a blank, and a closing bracket: the closing match of
   * the two values read.
   */
  lemma FromStrPadded(k: IntKind, s: string, o: char, l1: string, d1: Option<char>, t1: string,
                      l2: string, d2: Option<char>, t2: string, c: char)
    requires Spaces(l1) && Spaces(t1) && (d1.Some? ==> IsDigit(d1.value))
    requires Spaces(l2) && Spaces(t2) && (d2.Some? ==> IsDigit(d2.value))
    requires c == ']' || c == ')'
    requires s == [o] + (l1 + DigitText(d1) + t1) + [','] + (l2 + DigitText(d2) + t2) + [c]
    ensures FromStrSpec(s, ParserOf(k)) == Build(o, ScanState(DigitValue(d1), DigitValue(d2), c, None))
  {
    PaddedField(k, l1, d1, t1);
    PaddedField(k, l2, d2, t2);
    FromStrTwoFields(o, l1 + DigitText(d1) + t1, l2 + DigitText(d2) + t2, c, ParserOf(k));
  }

  /** "[1,4]" reads as [1, 4]. */
  lemma FromStrClosedClosed(k: IntKind)
    ensures FromStrSpec("[1,4]", ParserOf(k)) == Ok(ClosedClosed(1, 4))
  {
    FromStrPadded(k, "[1,4]", '[', "", Some('1'), "", "", Some('4'), "", ']');
  }

  /** "[ 1, 4)" reads as [1, 4): blanks around a value are ignored. */
  lemma FromStrClosedOpen(k: IntKind)
    ensures FromStrSpec("[ 1, 4)", ParserOf(k)) == Ok(ClosedOpen(1, 4))
  {
    FromStrPadded(k, "[ 1, 4)", '[', " ", Some('1'), "", " ", Some('4'), "", ')');
  }

  /** "(1,4)" reads as (1, 4). */
  lemma FromStrOpenOpen(k: IntKind)
    ensures FromStrSpec("(1,4)", ParserOf(k)) == Ok(OpenOpen(1, 4))
  {
    FromStrPadded(k, "(1,4)", '(', "", Some('1'), "", "", Some('4'), "", ')');
  }

  /** "(1,4  ]" reads as (1, 4]. */
  lemma FromStrOpenClosed(k: IntKind)
    ensures FromStrSpec("(1,4  ]", ParserOf(k)) == Ok(OpenClosed(1, 4))
  {
    FromStrPadded(k, "(1,4  ]", '(', "", Some('1'), "", "", Some('4'), "  ", ']');
  }

  /** "(1,)" reads as (1, +inf). */
  lemma FromStrOpenUnbounded(k: IntKind)
    ensures FromStrSpec("(1,)", ParserOf(k)) == Ok(OpenUnbounded(1))
  {
    FromStrPadded(k, "(1,)", '(', "", Some('1'), "", "", None, "", ')');
  }

  /** "[1,  )" reads as [1, +inf): a blank field is an unbounded side. */
  lemma FromStrClosedUnbounded(k: IntKind)
    ensures FromStrSpec("[1,  )", ParserOf(k)) == Ok(ClosedUnbounded(1))
  {
    FromStrPadded(k, "[1,  )", '[', "", Some('1'), "", "  ", None, "", ')');
  }

  /** "(,1)" reads as (-inf, 1). */
  lemma FromStrUnboundedOpen(k: IntKind)
    ensures FromStrSpec("(,1)", ParserOf(k)) == Ok(UnboundedOpen(1))
  {
    FromStrPadded(k, "(,1)", '(', "", None, "", "", Some('1'), "", ')');
  }

  /** "( ,1]" reads as (-inf, 1]. */
  lemma FromStrUnboundedClosed(k: IntKind)
    ensures FromStrSpec("( ,1]", ParserOf(k)) == Ok(UnboundedClosed(1))
  {
    FromStrPadded(k, "( ,1]", '(', " ", None, "", "", Some('1'), "", ']');
  }

  /** "(,)" reads as the doubly unbounded interval. */
  lemma FromStrDoublyUnbounded(k: IntKind)
    ensures FromStrSpec("(,)", ParserOf(k)) == Ok(DoublyUnbounded())
  {
    FromStrPadded(k, "(,)", '(', "", None, "", "", None, "", ')');
  }

  /** "&1,2" is refused: "&" is not an opening bracket. */
  lemma FromStrBadOpening(k: IntKind)
    ensures FromStrSpec("&1,2", ParserOf(k)) == Err(InvalidInput)
  {
    var s := "&1,2";
    var st := InitialState().(lo := Some(1));
    assert s[3] == '2' && |s| == 4;
    assert ScanFrom(s, ParserOf(k), st, 3) == Ok(st.(start := Some(3))) by {
      assert ScanStep(s, ParserOf(k), st, 3) == Ok(st.(start := Some(3)));
    }
    assert ScanFrom(s, ParserOf(k), InitialState(), 1) == ScanFrom(s, ParserOf(k), st, 3) by {
      assert s[1..2] == "1" && s[2] == ',' && Plain("1");
      assert FieldText("1", ParserOf(k)) == Ok(Some(1)) by { DigitField(k, "", '1', "", "1"); }
      ScanField(s, ParserOf(k), InitialState(), 1, 2);
    }
  }

  /** "empty" reads as the empty interval. */
  lemma FromStrEmpty(k: IntKind)
    ensures FromStrSpec("empty", ParserOf(k)) == Ok(Empty())
  {
  }
}
