/** Index ranges of array values (Access.c): parsing a range, reading the elements in it and writing
    them in place. */
module IndexRanges {
  import opened OpcTypes

  const LONG_MAX := 0x7FFF_FFFF_FFFF_FFFF

  // ----- Numbers in decimal -----

  predicate IsDigit(c: char) {
    '0' <= c <= '9'
  }

  predicate AllDigits(s: string) {
    forall i :: 0 <= i < |s| ==> IsDigit(s[i])
  }

  /** The number that a string of digits stands for. */
  function Value(s: string): nat
    requires AllDigits(s)
  {
    if s == "" then 0 else 10 * Value(s[..|s| - 1]) + (s[|s| - 1] as nat - '0' as nat)
  }

  function Print(n: nat): (s: string)
    ensures AllDigits(s) && s != ""
  {
    if n < 10 then ['0' + n as char] else Print(n / 10) + ['0' + (n % 10) as char]
  }

  lemma {:induction false} PrintedValue(n: nat)
    ensures Value(Print(n)) == n
  {
    if n >= 10 {
      PrintedValue(n / 10);
      assert Print(n)[..|Print(n)| - 1] == Print(n / 10);
    }
  }

  /** How many digits a string starts with. */
  function Lead(s: string): (n: nat)
    ensures n <= |s| && AllDigits(s[..n])
    ensures n < |s| ==> !IsDigit(s[n])
  {
    if s == "" || !IsDigit(s[0]) then 0
    else
      assert s == [s[0]] + s[1..];
      1 + Lead(s[1..])
  }

  /** A number as the C library's strtol saturates it and an assignment to a 32-bit int cuts it. */
  function Cut(v: nat): (i: int)
    ensures -INT32 <= i < INT32
    ensures i == v <==> v < INT32
  {
    var low := (if v > LONG_MAX then LONG_MAX else v) % UINT32;
    if low < INT32 then low else low - UINT32
  }

  /** strtol stops at the first character that is not a digit. */
  function ParseInt(s: string): (i: int)
    ensures -INT32 <= i < INT32
  {
    Cut(Value(s[..Lead(s)]))
  }

  /** Digits come through as their number exactly when the number fits into 31 bits. */
  lemma ParsesExactlyIff(s: string)
    requires AllDigits(s)
    ensures ParseInt(s) == Value(s) <==> Value(s) < INT32
  {
    assert s[..Lead(s)] == s;
  }

  /** Longer digits come through as what 32 bits keep of their number, cut off at the largest 64-bit one. */
  lemma ParseKeepsLowBits(s: string)
    requires AllDigits(s)
    ensures var v := if Value(s) > 0x7FFF_FFFF_FFFF_FFFF then 0x7FFF_FFFF_FFFF_FFFF else Value(s);
      -0x8000_0000 <= ParseInt(s) < 0x8000_0000 && exists k :: v == ParseInt(s) + k * 0x1_0000_0000
  {
    assert s[..Lead(s)] == s;
    CutKeepsLowBits(Value(s));
  }

  lemma CutKeepsLowBits(n: nat)
    ensures var v := if n > LONG_MAX then LONG_MAX else n;
      exists k :: v == Cut(n) + k * UINT32
  {
    var v := if n > LONG_MAX then LONG_MAX else n;
    var k := v / UINT32;
    assert v == v % UINT32 + k * UINT32;
    if v % UINT32 >= INT32 {
      assert v == Cut(n) + (k + 1) * UINT32;
    }
  }

  // ----- Parsing a range -----

  datatype Range = Range(low: int, high: int, elements: int)

  datatype Result<T> = Good(value: T) | BadIndexRangeInvalid | BadIndexRangeNoData

  predicate IsLegal(s: string) {
    forall i :: 0 <= i < |s| ==> IsDigit(s[i]) || s[i] == ':'
  }

  /** The place of the first colon, or the length. */
  function Colon(s: string): (n: nat)
    ensures n <= |s| && (n < |s| ==> s[n] == ':')
    ensures forall i :: 0 <= i < n ==> s[i] != ':'
  {
    if s == "" || s[0] == ':' then 0 else 1 + Colon(s[1..])
  }

  function Construct(s: Option<string>, length: nat): Result<Range> {
    if s.None? then Good(Range(0, length - 1, length))
    else
      var str := s.value;
      if !IsLegal(str) then BadIndexRangeInvalid
      else if str == "" then Good(Range(0, 0, 0))
      else
        var low := ParseInt(str[..Colon(str)]);
        var high := if Colon(str) == |str| then low else ParseInt(str[Colon(str) + 1..]);
        if low < 0 || (Colon(str) < |str| && low >= high) then BadIndexRangeInvalid
        else if high > length then BadIndexRangeNoData
        else Good(Range(low, high, high - low + 1))
  }

  lemma DigitsParts(p: string, q: string)
    requires AllDigits(p) && AllDigits(q)
    ensures IsLegal(p + ":" + q) && Colon(p + ":" + q) == |p|
    ensures (p + ":" + q)[..|p|] == p && (p + ":" + q)[|p| + 1..] == q
    ensures IsLegal(p) && Colon(p) == |p| && p[..|p|] == p
  {
    LegalParts(p, q);
    ColonAt(p + ":" + q, |p|);
    ColonAt(p, |p|);
    Slices(p, q);
  }

  lemma Slices(p: string, q: string)
    ensures (p + ":" + q)[..|p|] == p && (p + ":" + q)[|p| + 1..] == q
  {
  }

  lemma ColonAt(s: string, n: nat)
    requires n <= |s| && (forall i :: 0 <= i < n ==> IsDigit(s[i])) && (n < |s| ==> s[n] == ':')
    ensures Colon(s) == n
  {
  }

  lemma LegalParts(p: string, q: string)
    requires AllDigits(p) && AllDigits(q)
    ensures IsLegal(p + ":" + q) && IsLegal(p)
  {
  }

  lemma PrintedParse(n: nat)
    requires n < INT32
    ensures ParseInt(Print(n)) == n
  {
    PrintedValue(n);
    ParsesExactlyIff(Print(n));
  }

  /** A printed range of two bounds comes back as it was, and exactly those that are empty or reach
      beyond the length are refused. */
  lemma PrintedRange(l: nat, h: nat, length: nat)
    requires l < INT32 && h < INT32
    ensures Construct(Some(Print(l) + ":" + Print(h)), length)
      == if l >= h then BadIndexRangeInvalid else if h > length then BadIndexRangeNoData else Good(Range(l, h, h - l + 1))
  {
    DigitsParts(Print(l), Print(h));
    PrintedParse(l);
    PrintedParse(h);
  }

  lemma PrintedIndex(l: nat, length: nat)
    requires l < INT32
    ensures Construct(Some(Print(l)), length) == if l > length then BadIndexRangeNoData else Good(Range(l, l, 1))
  {
    DigitsParts(Print(l), "");
    PrintedParse(l);
  }

  /** Anything but digits and colons is refused; no string means the whole array, and an empty one no element
      of it. */
  lemma RangeAnswers(s: string, length: nat)
    ensures (exists i :: 0 <= i < |s| && s[i] != ':' && !('0' <= s[i] <= '9')) ==> Construct(Some(s), length) == BadIndexRangeInvalid
    ensures Construct(None, length) == Good(Range(0, length - 1, length))
    ensures Construct(Some(""), length) == Good(Range(0, 0, 0))
  {
  }

  /** What a range comes to, given the numbers on both sides of its first colon. */
  function Bounded(low: int, high: int, length: nat): Result<Range> {
    if low < 0 || low >= high then BadIndexRangeInvalid
    else if high > length then BadIndexRangeNoData
    else Good(Range(low, high, high - low + 1))
  }

  lemma TwoParts(p: string, q: string, length: nat)
    requires AllDigits(p) && IsLegal(q)
    ensures Construct(Some(p + ":" + q), length) == Bounded(ParseInt(p), ParseInt(q), length)
  {
    var s := p + ":" + q;
    LegalSum(p, q);
    ColonAt(s, |p|);
    Slices(p, q);
    assert |s| == |p| + 1 + |q|;
  }

  lemma LegalSum(p: string, q: string)
    requires AllDigits(p) && IsLegal(q)
    ensures IsLegal(p + ":" + q)
  {
    var s := p + ":" + q;
    forall i | 0 <= i < |s|
      ensures IsDigit(s[i]) || s[i] == ':'
    {
      if i > |p| {
        assert s[i] == q[i - |p| - 1];
      }
    }
  }

  /** A missing lower bound is zero. */
  lemma NoLowerBound(h: nat, length: nat)
    requires h < INT32
    ensures Construct(Some(":" + Print(h)), length) == Construct(Some(Print(0) + ":" + Print(h)), length)
  {
    assert "" + ":" + Print(h) == ":" + Print(h);
    TwoParts("", Print(h), length);
    TwoParts(Print(0), Print(h), length);
    PrintedParse(0);
    ParseNothing();
  }

  lemma ParseNothing()
    ensures ParseInt("") == 0
  {
  }

  /** A missing upper bound makes the range empty. */
  lemma NoUpperBound(l: nat, length: nat)
    requires l < INT32
    ensures Construct(Some(Print(l) + ":"), length) == BadIndexRangeInvalid
  {
    assert Print(l) + ":" + "" == Print(l) + ":";
    TwoParts(Print(l), "", length);
    PrintedParse(l);
    ParseNothing();
  }

  /** Whatever follows a second colon is not looked at. */
  lemma TailIgnored(l: nat, h: nat, rest: string, length: nat)
    requires IsLegal(rest)
    ensures Construct(Some(Print(l) + ":" + (Print(h) + ":" + rest)), length) == Construct(Some(Print(l) + ":" + Print(h)), length)
  {
    LegalSum(Print(h), rest);
    TwoParts(Print(l), Print(h) + ":" + rest, length);
    TwoParts(Print(l), Print(h), length);
    StopsAtColon(Print(h), rest);
  }

  lemma StopsAtColon(digits: string, rest: string)
    requires AllDigits(digits)
    ensures ParseInt(digits + ":" + rest) == ParseInt(digits)
  {
    LeadOfSum(digits, rest);
    assert (digits + ":" + rest)[..|digits|] == digits == digits[..|digits|];
  }

  lemma {:induction false} LeadOfSum(digits: string, rest: string)
    requires AllDigits(digits)
    ensures Lead(digits + ":" + rest) == |digits| == Lead(digits)
  {
    if digits != "" {
      assert (digits + ":" + rest)[1..] == digits[1..] + ":" + rest;
      LeadOfSum(digits[1..], rest);
    }
  }

  /** The number behind the colon, or the only one. */
  function UpperOf(s: string): int {
    if Colon(s) == |s| then ParseInt(s) else ParseInt(s[Colon(s) + 1..])
  }

  /** The places that an accepted range touches all exist exactly when its upper number is not the length
      itself, which the parser lets through; the count is that of the places except for an empty string. */
  lemma InBoundsIff(s: Option<string>, length: nat)
    requires Construct(s, length).Good?
    ensures var r := Construct(s, length).value;
      && (s.Some? ==> 0 <= r.low <= r.high)
      && (r.elements == r.high - r.low + 1 <==> s != Some(""))
      && ((forall c :: r.low <= c <= r.high ==> IsPlace(c, length)) <==> s.None? || UpperOf(s.value) != length)
      && (r.high != length <==> s.None? || UpperOf(s.value) != length)
  {
    var r := Construct(s, length).value;
    assert IsPlace(length, length) == false;
    if s.Some? {
      assert s.value[..|s.value|] == s.value;
      assert s.value == "" ==> ParseInt(s.value) == 0;
    }
  }

  predicate IsPlace(c: int, length: nat) {
    0 <= c < length
  }

  /** An index equal to the length is accepted. */
  lemma LengthIsAccepted(length: nat)
    requires length < INT32
    ensures Construct(Some(Print(length)), length) == Good(Range(length, length, 1))
  {
    PrintedIndex(length, length);
  }

  // ----- Elements -----

  /** An array element. Structures for which no copy function exists cannot be copied. */
  datatype Element = Blank | Plain(v: nat) | Uncopyable(v: nat)

  function Copied(e: Element): Element {
    if e.Uncopyable? then Blank else e
  }

  /** What reading a range yields. */
  function Selected(a: seq<Element>, r: Range): (out: seq<Element>)
    requires 0 <= r.low <= r.high + 1 <= |a|
    ensures |out| == r.high - r.low + 1
    ensures forall k :: 0 <= k < |out| ==> out[k] == Copied(a[r.low + k])
  {
    seq(r.high - r.low + 1, k requires 0 <= k <= r.high - r.low => Copied(a[r.low + k]))
  }

  /** The step, from `k` on, at which a write of `n` elements meets one that cannot be copied, or `n`. */
  function FirstUncopyable(supplied: seq<Element>, n: nat, k: nat): (m: nat)
    requires k <= n
    ensures k <= m <= n && forall i :: k <= i < m && i < |supplied| ==> !supplied[i].Uncopyable?
    ensures m < n ==> m < |supplied| && supplied[m].Uncopyable?
    decreases n - k
  {
    if k == n || (k < |supplied| && supplied[k].Uncopyable?) then k else FirstUncopyable(supplied, n, k + 1)
  }

  /** Every place of the array and of the supplied elements that the write touches exists. */
  ghost predicate Fits(length: nat, supplied: seq<Element>, r: Range) {
    && 0 <= r.low <= r.high + 1
    && var n := r.high - r.low + 1;
       var m := FirstUncopyable(supplied, n, 0);
       if m < n then r.low + m < length else n <= |supplied| && r.high < length
  }

  /** Step `k` of a write of `n` elements is reached when all before it could be copied. */
  ghost predicate Reached(supplied: seq<Element>, n: nat, k: nat) {
    k < n && forall i :: 0 <= i < k && i < |supplied| ==> !supplied[i].Uncopyable?
  }

  function LowOf(s: Option<string>): int {
    if s.None? then 0 else ParseInt(s.value[..Colon(s.value)])
  }

  function HighOf(s: Option<string>, length: nat): int {
    if s.None? then length - 1 else UpperOf(s.value)
  }

  /** As many elements are supplied as the range has and its upper number is not the length, or the write
      stops before that at an element that cannot be copied. */
  ghost predicate WriteFits(s: Option<string>, length: nat, supplied: seq<Element>) {
    var low, high := LowOf(s), HighOf(s, length);
    || (high - low < |supplied| && high != length)
    || exists k :: 0 <= k <= high - low && k < |supplied| && supplied[k].Uncopyable? && low + k < length
  }

  predicate StepExists(length: nat, supplied: seq<Element>, low: int, k: nat) {
    k < |supplied| && IsPlace(low + k, length)
  }

  ghost predicate StepsExist(length: nat, supplied: seq<Element>, low: int, n: nat) {
    forall k: nat :: Reached(supplied, n, k) ==> StepExists(length, supplied, low, k)
  }

  lemma StepsExistIff(length: nat, supplied: seq<Element>, r: Range)
    requires 0 <= r.low <= r.high + 1 && r.low <= length && r.high <= length
    ensures StepsExist(length, supplied, r.low, r.high - r.low + 1) <==> Fits(length, supplied, r)
  {
    var n := r.high - r.low + 1;
    var m := FirstUncopyable(supplied, n, 0);
    if StepsExist(length, supplied, r.low, n) {
      assert m < n ==> Reached(supplied, n, m);
      assert m == n > 0 ==> Reached(supplied, n, n - 1) && StepExists(length, supplied, r.low, n - 1);
    }
    if Fits(length, supplied, r) {
      forall k: nat | Reached(supplied, n, k)
        ensures StepExists(length, supplied, r.low, k)
      {
        assert k <= m;
      }
    }
  }

  /** Everything that a write touches exists exactly when the write fits; nothing in the source checks this. */
  lemma WriteInBoundsIff(s: Option<string>, length: nat, supplied: seq<Element>)
    requires Construct(s, length).Good?
    ensures var r := Construct(s, length).value;
      && r.low <= r.high + 1
      && (StepsExist(length, supplied, r.low, r.high - r.low + 1) <==> WriteFits(s, length, supplied))
      && (Fits(length, supplied, r) <==> WriteFits(s, length, supplied))
  {
    var r := Construct(s, length).value;
    RangeOf(s, length);
    StepsExistIff(length, supplied, r);
    var n := r.high - r.low + 1;
    var m := FirstUncopyable(supplied, n, 0);
    if Fits(length, supplied, r) && m < n {
      assert supplied[m].Uncopyable? && r.low + m < length;
    }
    if k :| 0 <= k < n && k < |supplied| && supplied[k].Uncopyable? && r.low + k < length {
      assert m <= k;
    }
  }

  lemma RangeOf(s: Option<string>, length: nat)
    requires Construct(s, length).Good?
    ensures var r := Construct(s, length).value;
      r.low == LowOf(s) && r.high == HighOf(s, length) && r.low <= length && r.high <= length && 0 <= r.low <= r.high + 1
  {
    if s.Some? {
      assert s.value[..|s.value|] == s.value;
      assert s.value == "" ==> ParseInt(s.value) == 0;
    }
  }

  /** The array after a write: the supplied elements up to the first that cannot be copied, whose
      place is emptied, and the old elements everywhere else. */
  ghost predicate Written(a: seq<Element>, supplied: seq<Element>, r: Range, b: seq<Element>)
    requires Fits(|a|, supplied, r)
  {
    var n := r.high - r.low + 1;
    var m := FirstUncopyable(supplied, n, 0);
    && |b| == |a|
    && (forall i :: 0 <= i < |a| && !(r.low <= i <= r.low + m && i <= r.high) ==> b[i] == a[i])
    && (forall k :: 0 <= k < m ==> b[r.low + k] == supplied[k])
    && (m < n ==> b[r.low + m] == Blank)
  }

  /** A good write followed by a read of the same range returns what was written; a read of any
      disjoint range returns what it returned before. */
  lemma ReadAfterWrite(a: seq<Element>, supplied: seq<Element>, r: Range, b: seq<Element>, other: Range)
    requires r.high < |a| && Fits(|a|, supplied, r) && Written(a, supplied, r, b)
    requires 0 <= other.low <= other.high + 1 <= |a|
    ensures FirstUncopyable(supplied, r.high - r.low + 1, 0) == r.high - r.low + 1 ==>
      Selected(b, r) == supplied[..r.high - r.low + 1]
    ensures other.high < r.low || r.high < other.low ==> Selected(b, other) == Selected(a, other)
  {
  }

  /** A read has one element for each place of the range, in order; those that cannot be copied are blank. */
  lemma ReadShows(a: seq<Element>, r: Range, k: nat)
    requires 0 <= r.low <= r.high + 1 <= |a| && k < r.high - r.low + 1
    ensures |Selected(a, r)| == r.high - r.low + 1
    ensures Selected(a, r)[k] == match a[r.low + k] case Blank => Blank case Plain(v) => Plain(v) case Uncopyable(_) => Blank
  {
  }

  /** Writing back what was read changes nothing, if the elements can be copied at all. */
  lemma WriteBack(a: seq<Element>, r: Range, b: seq<Element>)
    requires 0 <= r.low <= r.high + 1 <= |a| && Fits(|a|, Selected(a, r), r) && Written(a, Selected(a, r), r, b)
    requires forall i :: r.low <= i <= r.high ==> !a[i].Uncopyable?
    ensures b == a
  {
    var n := r.high - r.low + 1;
    assert FirstUncopyable(Selected(a, r), n, 0) == n;
    forall i | 0 <= i < |a|
      ensures b[i] == a[i]
    {
      if r.low <= i <= r.high {
        assert b[r.low + (i - r.low)] == Selected(a, r)[i - r.low];
      }
    }
  }

  // ----- The parser -----

  method IsNumericRangeValid(s: string) returns (valid: bool)
    ensures valid <==> IsLegal(s)
  {
    var i := 0;
    while i < |s|
      invariant 0 <= i <= |s| && forall j :: 0 <= j < i ==> IsDigit(s[j]) || s[j] == ':'
    {
      if !IsDigit(s[i]) && s[i] != ':' {
        return false;
      }
      i := i + 1;
    }
    return true;
  }

  /** Counts the characters in front of the colon. */
  method FindFirstPart(s: string) returns (val: int, numChars: nat)
    ensures val == ParseInt(s[..Colon(s)]) && numChars == Colon(s)
  {
    numChars := 0;
    var i := 0;
    while i < |s|
      invariant i == numChars <= |s| && forall j :: 0 <= j < i ==> s[j] != ':'
    {
      if s[i] != ':' {
        numChars := numChars + 1;
      } else {
        break;
      }
      i := i + 1;
    }
    val := ParseInt(s[..numChars]);
  }

  method ConstructRange(s: Option<string>, length: nat) returns (range: Result<Range>)
    ensures range == Construct(s, length)
  {
    var low, high, elements := 0, 0, 0;
    if s.Some? {
      var valid := IsNumericRangeValid(s.value);
      if !valid {
        return BadIndexRangeInvalid;
      }
      if |s.value| > 0 {
        var colon;
        low, colon := FindFirstPart(s.value);
        if low < 0 {
          return BadIndexRangeInvalid;
        }
        if colon == |s.value| {
          high := low;
        } else {
          high := ParseInt(s.value[colon + 1..]);
          if low >= high {
            return BadIndexRangeInvalid;
          }
        }
        if high > length {
          return BadIndexRangeNoData;
        }
        elements := high - low + 1;
      }
    } else {
      low, high := 0, length - 1;
      elements := high - low + 1;
    }
    return Good(Range(low, high, elements));
  }

  // ----- Reading and writing in place -----

  /** The elements of the range, copied into a new array; elements that cannot be copied stay blank.
      By `InBoundsIff` the bounds hold exactly when the upper bound is not the length; an empty range
      string leaves no room for the element that is read, so it is not read here. */
  method ReadRange(source: array<Element>, s: Option<string>) returns (range: Result<Range>, out: seq<Element>)
    requires Construct(s, source.Length).Good? && s.Some? ==> UpperOf(s.value) != source.Length
    requires s != Some("")
    ensures range == Construct(s, source.Length)
    ensures range.Good? ==> 0 <= range.value.low <= range.value.high + 1 <= source.Length
    ensures out == if range.Good? then Selected(source[..], range.value) else []
  {
    range := ConstructRange(s, source.Length);
    if !range.Good? {
      return range, [];
    }
    InBoundsIff(s, source.Length);
    RangeOf(s, source.Length);
    out := CopyRange(source, range.value);
  }

  method CopyRange(source: array<Element>, range: Range) returns (out: seq<Element>)
    requires 0 <= range.low <= range.high + 1 <= source.Length && range.elements == range.high - range.low + 1
    ensures out == Selected(source[..], range)
  {
    var low, high := range.low, range.high;
    var target := new Element[range.elements](_ => Blank);
    var c, cur := low, 0;
    while c <= high
      invariant low <= c <= high + 1 && cur == c - low
      invariant forall k :: 0 <= k < cur ==> target[k] == Copied(source[low + k])
      invariant forall k :: cur <= k < target.Length ==> target[k] == Blank
    {
      if !source[c].Uncopyable? {
        target[cur] := source[c];
      }
      c, cur := c + 1, cur + 1;
    }
    out := target[..];
    assert out == Selected(source[..], range);
  }

  datatype WriteStatus = WriteGood | WriteRange(range: Result<Range>) | WriteTypeMismatch | WriteRefused | WriteNotImplemented

  /** The array branch of Write. `valid` is the outcome of the type check. By `WriteInBoundsIff` all places
      that it touches exist exactly when the write fits. */
  method WriteArray(target: array<Element>, supplied: seq<Element>, s: Option<string>, valid: bool) returns (status: WriteStatus)
    requires Construct(s, target.Length).Good? && |supplied| > 0 && valid ==> WriteFits(s, target.Length, supplied)
    modifies target
    ensures !Construct(s, target.Length).Good? ==> status == WriteRange(Construct(s, target.Length)) && target[..] == old(target[..])
    ensures Construct(s, target.Length).Good? && |supplied| == 0 ==> status == WriteTypeMismatch && target[..] == old(target[..])
    ensures Construct(s, target.Length).Good? && |supplied| > 0 && !valid ==> status == WriteRefused && target[..] == old(target[..])
    ensures Construct(s, target.Length).Good? && |supplied| > 0 && valid ==>
      WrittenAs(old(target[..]), supplied, Construct(s, target.Length).value, status, target[..])
  {
    var range := ConstructRange(s, target.Length);
    if !range.Good? {
      return WriteRange(range);
    }
    if |supplied| == 0 {
      return WriteTypeMismatch;
    }
    if !valid {
      return WriteRefused;
    }
    WriteInBoundsIff(s, target.Length, supplied);
    status := WriteElements(target, supplied, range.value);
  }

  /** The loop of the write: each place is emptied before the element is copied into it. */
  method WriteElements(target: array<Element>, supplied: seq<Element>, range: Range) returns (status: WriteStatus)
    requires Fits(target.Length, supplied, range)
    modifies target
    ensures WrittenAs(old(target[..]), supplied, range, status, target[..])
  {
    ghost var m := FirstUncopyable(supplied, range.high - range.low + 1, 0);
    var c, cur := range.low, 0;
    while c <= range.high
      invariant 0 <= cur <= m && c == range.low + cur
      invariant forall k :: 0 <= k < cur ==> target[range.low + k] == supplied[k]
      invariant forall i :: 0 <= i < target.Length && !(range.low <= i < c) ==> target[i] == old(target[i])
    {
      target[c] := Blank;
      if supplied[cur].Uncopyable? {
        return WriteNotImplemented;
      }
      target[c] := supplied[cur];
      c, cur := c + 1, cur + 1;
    }
    return WriteGood;
  }

  ghost predicate WrittenAs(a: seq<Element>, supplied: seq<Element>, r: Range, status: WriteStatus, b: seq<Element>) {
    && Fits(|a|, supplied, r) && Written(a, supplied, r, b)
    && status == if FirstUncopyable(supplied, r.high - r.low + 1, 0) == r.high - r.low + 1 then WriteGood else WriteNotImplemented
  }
}
