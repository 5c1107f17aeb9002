/** The HTTP Range header, and the byte positions it asks for. */
module RangeHeader {
  import opened Wrappers

  const U64_LIMIT := 0x1_0000_0000_0000_0000

  // ---------- Text ----------

  // The characters Unicode calls White_Space.
  predicate IsSpace(c: char) {
    var x := c as int;
    9 <= x <= 13 || x == 0x20 || x == 0x85 || x == 0xA0 || x == 0x1680 || 0x2000 <= x <= 0x200A
    || x == 0x2028 || x == 0x2029 || x == 0x202F || x == 0x205F || x == 0x3000
  }

  function TrimStart(s: string): string {
    if s != "" && IsSpace(s[0]) then TrimStart(s[1..]) else s
  }

  function TrimEnd(s: string): string {
    if s != "" && IsSpace(s[|s| - 1]) then TrimEnd(s[..|s| - 1]) else s
  }

  function Trim(s: string): string {
    TrimEnd(TrimStart(s))
  }

  function StripPrefix(s: string, prefix: string): Option<string> {
    if prefix <= s then Some(s[|prefix|..]) else None
  }

  // The text before and after the first `sep`.
  function SplitOnce(s: string, sep: char): Option<(string, string)> {
    if s == "" then None
    else if s[0] == sep then Some(("", s[1..]))
    else match SplitOnce(s[1..], sep)
         case None => None
         case Some((before, after)) => Some(([s[0]] + before, after))
  }

  predicate IsDigit(c: char) {
    '0' <= c <= '9'
  }

  predicate AllDigits(s: string) {
    forall i :: 0 <= i < |s| ==> IsDigit(s[i])
  }

  function DecimalValue(s: string): nat
    requires AllDigits(s)
  {
    if s == "" then 0 else 10 * DecimalValue(s[..|s| - 1]) + (s[|s| - 1] as int - '0' as int)
  }

  // The standard parser of u64: one optional plus sign, then digits.
  function ParseU64(s: string): Option<nat> {
    var digits := if |s| > 1 && s[0] == '+' then s[1..] else s;
    if digits == "" || !AllDigits(digits) || DecimalValue(digits) >= U64_LIMIT then None
    else Some(DecimalValue(digits))
  }

  // ---------- The header ----------

  datatype RangeError = RangeNotSatisfiable(message: string)

  // A half-open range of byte positions, or none if the header asks for none.
  // Whatever the text, an accepted range is non-empty and in bounds.
  function ParseRange(value: string, total: nat): (r: Result<Option<(nat, nat)>, RangeError>)
    ensures r.Ok? && r.value.Some? ==> r.value.value.0 < r.value.value.1 <= total
  {
    var spec := match StripPrefix(Trim(value), "bytes=") case Some(rest) => rest case None => "";
    if spec == "" then Ok(None)
    else if total == 0 then Err(RangeNotSatisfiable("empty file"))
    else match StripPrefix(spec, "-")
         case Some(suffix) => ParseSuffix(suffix, total)
         case None =>
           var (startText, endText) := match SplitOnce(spec, '-') case Some(pair) => pair case None => (spec, "");
           ParseFromTo(startText, endText, total)
  }

  function ParseSuffix(suffix: string, total: nat): Result<Option<(nat, nat)>, RangeError> {
    match ParseU64(suffix)
    case None => Err(RangeNotSatisfiable("bad range"))
    case Some(n) =>
      if n == 0 then Err(RangeNotSatisfiable("bad range")) else Ok(Some((Max(total - n, 0), total)))
  }

  // The sum last + 1 is a u64 and wraps.
  function ParseFromTo(startText: string, endText: string, total: nat): Result<Option<(nat, nat)>, RangeError> {
    match ParseU64(startText)
    case None => Err(RangeNotSatisfiable("bad range"))
    case Some(start) =>
      if start >= total then Err(RangeNotSatisfiable("range past end"))
      else if endText == "" then Ok(Some((start, total)))
      else
        match ParseU64(endText)
        case None => Err(RangeNotSatisfiable("bad range"))
        case Some(last) =>
          var end: nat := Min((last + 1) % U64_LIMIT, total);
          if end <= start then Err(RangeNotSatisfiable("bad range")) else Ok(Some((start, end)))
  }

  // ---------- Texts ----------

  // Trimming takes off space only, and leaves none at either end.
  lemma {:induction false} TrimStartExactly(s: string) returns (before: string)
    ensures s == before + TrimStart(s) && forall i :: 0 <= i < |before| ==> IsSpace(before[i])
    ensures TrimStart(s) == "" || !IsSpace(TrimStart(s)[0])
    decreases |s|
  {
    before := "";
    if s != "" && IsSpace(s[0]) {
      var more := TrimStartExactly(s[1..]);
      before := [s[0]] + more;
    }
  }

  lemma {:induction false} TrimEndExactly(s: string) returns (after: string)
    ensures s == TrimEnd(s) + after && forall i :: 0 <= i < |after| ==> IsSpace(after[i])
    ensures TrimEnd(s) == "" || !IsSpace(TrimEnd(s)[|TrimEnd(s)| - 1])
    decreases |s|
  {
    after := "";
    if s != "" && IsSpace(s[|s| - 1]) {
      var less := TrimEndExactly(s[..|s| - 1]);
      after := less + [s[|s| - 1]];
    } else {
      assert s + "" == s;
    }
  }

  lemma TrimExactly(s: string) returns (before: string, after: string)
    ensures s == before + (Trim(s) + after)
    ensures forall i :: 0 <= i < |before| ==> IsSpace(before[i])
    ensures forall i :: 0 <= i < |after| ==> IsSpace(after[i])
    ensures Trim(s) == "" || (!IsSpace(Trim(s)[0]) && !IsSpace(Trim(s)[|Trim(s)| - 1]))
  {
    before := TrimStartExactly(s);
    after := TrimEndExactly(TrimStart(s));
    if Trim(s) != "" {
      assert Trim(s)[0] == TrimStart(s)[0];
    }
  }

  lemma {:induction false} SplitOnceExactly(s: string, sep: char)
    ensures SplitOnce(s, sep).None? <==> sep !in s
    ensures SplitOnce(s, sep).Some? ==>
      var (before, after) := SplitOnce(s, sep).value;
      s == before + ([sep] + after) && sep !in before
    decreases |s|
  {
    if s != "" {
      SplitOnceExactly(s[1..], sep);
      assert s == [s[0]] + s[1..];
      if s[0] == sep {
        assert s == "" + ([sep] + s[1..]);
      }
    }
  }

  // Digits, perhaps behind one plus sign.
  predicate IsNumber(s: string) {
    (s != "" && AllDigits(s)) || (|s| > 1 && s[0] == '+' && AllDigits(s[1..]))
  }

  function NumberValue(s: string): nat
    requires IsNumber(s)
  {
    if s[0] == '+' then DecimalValue(s[1..]) else DecimalValue(s)
  }

  lemma NumberExactly(s: string)
    ensures ParseU64(s) == if IsNumber(s) && NumberValue(s) < U64_LIMIT then Some(NumberValue(s)) else None
  {
    if s != "" && AllDigits(s) {
      assert IsDigit(s[0]);
    }
    if s != "" && s[0] == '+' {
      assert !IsDigit(s[0]);
    }
  }

  predicate AsksForRange(value: string) {
    "bytes=" < Trim(value)
  }

  // The header is ignored exactly if it asks for no byte range at all; what asks
  // for one and cannot have it is refused.
  lemma IgnoredExactly(value: string, total: nat)
    ensures ParseRange(value, total) == Ok(None) <==> !AsksForRange(value)
  {
  }

  // What can be accepted: a suffix, or a first position that may stand alone or
  // in front of a dash, with or without a last position.
  lemma AcceptedShape(value: string, total: nat) returns (x: string, y: string)
    requires ParseRange(value, total).Ok? && AsksForRange(value)
    ensures IsNumber(x) && (y == "" || IsNumber(y))
    ensures var spec := Trim(value)[6..];
            (spec == "-" + x && total - NumberValue(x) < total) || (spec == x && y == "") || spec == x + ("-" + y)
  {
    var spec := Trim(value)[6..];
    if "-" <= spec {
      x, y := spec[1..], "";
      assert spec == "-" + x;
    } else {
      SplitOnceExactly(spec, '-');
      x, y := spec, "";
      if SplitOnce(spec, '-').Some? {
        x, y := SplitOnce(spec, '-').value.0, SplitOnce(spec, '-').value.1;
      }
      NumberExactly(y);
    }
    NumberExactly(x);
  }

  // ---------- The standard ----------

  // The range-specs of section 14.1.2 of RFC 9110: first-pos "-" [last-pos], and
  // "-" suffix-length, each number one or more digits.
  datatype RangeSpec = IntRange(first: string, last: Option<string>) | SuffixRange(length: string)
  {
    predicate WellFormed() {
      match this
      case IntRange(first, last) =>
        first != "" && AllDigits(first) && (last.Some? ==> last.value != "" && AllDigits(last.value))
      case SuffixRange(length) => length != "" && AllDigits(length)
    }

    function Text(): string {
      match this
      case IntRange(first, last) => "bytes=" + (first + ("-" + (if last.Some? then last.value else "")))
      case SuffixRange(length) => "bytes=" + ("-" + length)
    }

    // The positions the standard gives the spec in a file of `total` bytes; none
    // if it names no byte of the file or its last position precedes its first.
    function Positions(total: nat): Option<(nat, nat)>
      requires WellFormed()
    {
      match this
      case IntRange(first, last) =>
        var f := DecimalValue(first);
        if f >= total then None
        else if last.None? then Some((f, total))
        else if DecimalValue(last.value) < f then None
        else Some((f, Min(DecimalValue(last.value) + 1, total)))
      case SuffixRange(length) =>
        var n := DecimalValue(length);
        if n == 0 || total == 0 then None else Some((Max(total - n, 0), total))
    }

    // A number the u64 arithmetic of the code cannot hold.
    predicate Overlong()
      requires WellFormed()
    {
      match this
      case IntRange(_, last) => last.Some? && DecimalValue(last.value) >= U64_LIMIT - 1
      case SuffixRange(length) => DecimalValue(length) >= U64_LIMIT
    }
  }

  lemma {:induction false} SplitAtDash(first: string, rest: string)
    requires AllDigits(first)
    ensures SplitOnce(first + ("-" + rest), '-') == Some((first, rest))
    decreases |first|
  {
    if first == "" {
      assert first + ("-" + rest) == "-" + rest;
    } else {
      assert IsDigit(first[0]);
      var s := first + ("-" + rest);
      assert s[1..] == first[1..] + ("-" + rest);
      SplitAtDash(first[1..], rest);
      assert [first[0]] + first[1..] == first;
    }
  }

  lemma DigitsParse(s: string)
    requires s != "" && AllDigits(s)
    ensures ParseU64(s) == if DecimalValue(s) < U64_LIMIT then Some(DecimalValue(s)) else None
  {
    assert IsDigit(s[0]);
  }

  // What is left of a spec's text once it is trimmed and "bytes=" is taken off.
  lemma TextUnwraps(spec: RangeSpec, body: string)
    requires spec.WellFormed() && spec.Text() == "bytes=" + body
    requires body != "" && !IsSpace(body[|body| - 1])
    ensures StripPrefix(Trim(spec.Text()), "bytes=") == Some(body)
  {
    var text := spec.Text();
    assert text[0] == 'b' && text[|text| - 1] == body[|body| - 1];
    assert Trim(text) == text;
    assert text[6..] == body;
  }

  predicate Agrees(r: Result<Option<(nat, nat)>, RangeError>, positions: Option<(nat, nat)>) {
    match positions
    case Some(range) => r == Ok(Some(range))
    case None => r.Err?
  }

  lemma SuffixMeetsStandard(length: string, total: nat)
    requires SuffixRange(length).WellFormed() && total < U64_LIMIT
    ensures var spec := SuffixRange(length);
            Agrees(ParseRange(spec.Text(), total), spec.Positions(total))
            <==> !(spec.Overlong() && spec.Positions(total).Some?)
  {
    assert IsDigit(length[|length| - 1]);
    TextUnwraps(SuffixRange(length), "-" + length);
    assert ("-" + length)[1..] == length;
    DigitsParse(length);
  }

  lemma IntTextUnwraps(first: string, last: Option<string>, total: nat)
    requires IntRange(first, last).WellFormed()
    ensures ParseRange(IntRange(first, last).Text(), total)
            == if total == 0 then Err(RangeNotSatisfiable("empty file"))
               else ParseFromTo(first, if last.Some? then last.value else "", total)
  {
    var rest := if last.Some? then last.value else "";
    var body := first + ("-" + rest);
    assert IsDigit(first[0]) && body[0] == first[0];
    assert !IsSpace(body[|body| - 1]) by {
      assert body[|body| - 1] == if rest != "" then rest[|rest| - 1] else '-';
      assert rest != "" ==> IsDigit(rest[|rest| - 1]);
    }
    TextUnwraps(IntRange(first, last), body);
    assert StripPrefix(body, "-") == None;
    SplitAtDash(first, rest);
  }

  lemma FromToMeetsStandard(first: string, last: Option<string>, total: nat)
    requires IntRange(first, last).WellFormed() && 0 < total < U64_LIMIT
    ensures var spec := IntRange(first, last);
            Agrees(ParseFromTo(first, if last.Some? then last.value else "", total), spec.Positions(total))
            <==> !(spec.Overlong() && spec.Positions(total).Some?)
  {
    DigitsParse(first);
    if last.Some? {
      DigitsParse(last.value);
    }
  }

  /** ParseRange gives the standard's positions, and an error where there are
      none, for every spec and file size, unless a number is too long for u64
      in a spec the standard can satisfy; then it always differs. */
  lemma ParseRangeMeetsStandard(spec: RangeSpec, total: nat)
    requires spec.WellFormed() && total < U64_LIMIT
    ensures Agrees(ParseRange(spec.Text(), total), spec.Positions(total))
            <==> !(spec.Overlong() && spec.Positions(total).Some?)
  {
    match spec
    case SuffixRange(length) => SuffixMeetsStandard(length, total);
    case IntRange(first, last) =>
      IntTextUnwraps(first, last, total);
      if total > 0 {
        FromToMeetsStandard(first, last, total);
      }
  }

  // The value of a text in two halves.
  lemma {:induction false} ValueOfJoined(s: string, t: string)
    requires AllDigits(s) && AllDigits(t)
    ensures AllDigits(s + t) && DecimalValue(s + t) == DecimalValue(s) * Pow10(|t|) + DecimalValue(t)
    decreases |t|
  {
    if t == "" {
      assert s + t == s;
    } else {
      var n := |t| - 1;
      ValueOfJoined(s, t[..n]);
      assert t == t[..n] + [t[n]] && s + t == s + t[..n] + [t[n]];
      OneMoreDigit(t[..n], t[n]);
      OneMoreDigit(s + t[..n], t[n]);
      ShiftValue(DecimalValue(s), Pow10(n), DecimalValue(t[..n]), Digit(t[n]));
    }
  }

  lemma OneMoreDigit(s: string, c: char)
    requires AllDigits(s) && IsDigit(c)
    ensures AllDigits(s + [c]) && DecimalValue(s + [c]) == 10 * DecimalValue(s) + Digit(c)
  {
    assert (s + [c])[..|s|] == s;
  }

  lemma ShiftValue(a: int, p: int, b: int, d: int)
    ensures 10 * (a * p + b) + d == a * (10 * p) + (10 * b + d)
  {
  }

  function Pow10(n: nat): nat {
    if n == 0 then 1 else 10 * Pow10(n - 1)
  }

  function Digit(c: char): int {
    c as int - '0' as int
  }

  lemma TwoDigits(a: char, b: char)
    requires IsDigit(a) && IsDigit(b)
    ensures AllDigits([a, b]) && DecimalValue([a, b]) == 10 * Digit(a) + Digit(b)
  {
    OneMoreDigit("", a);
    OneMoreDigit([a], b);
    assert "" + [a] == [a] && [a] + [b] == [a, b];
  }

  lemma FiveDigits(s: string)
    requires |s| == 5 && AllDigits(s)
    ensures DecimalValue(s)
            == 1000 * (10 * Digit(s[0]) + Digit(s[1])) + 100 * Digit(s[2]) + 10 * Digit(s[3]) + Digit(s[4])
  {
    TwoDigits(s[0], s[1]);
    var two := [s[0], s[1]];
    OneMoreDigit(two, s[2]);
    OneMoreDigit(two + [s[2]], s[3]);
    OneMoreDigit(two + [s[2]] + [s[3]], s[4]);
    assert two + [s[2]] + [s[3]] + [s[4]] == s;
  }

  const LARGEST_U64 := "18446744073709551615"

  lemma Groups()
    ensures "18446" + "74407" + "37095" + "51615" == LARGEST_U64
  {
  }

  lemma GroupValues()
    ensures AllDigits("18446") && AllDigits("74407") && AllDigits("37095") && AllDigits("51615")
    ensures DecimalValue("18446") == 18446 && DecimalValue("74407") == 74407
    ensures DecimalValue("37095") == 37095 && DecimalValue("51615") == 51615
  {
    FiveDigits("18446");
    FiveDigits("74407");
    FiveDigits("37095");
    FiveDigits("51615");
  }

  lemma LargestU64()
    ensures LARGEST_U64 != "" && AllDigits(LARGEST_U64) && DecimalValue(LARGEST_U64) == U64_LIMIT - 1
  {
    GroupValues();
    FourGroups("18446", "74407", "37095", "51615");
    Groups();
  }

  lemma FourGroups(a: string, b: string, c: string, d: string)
    requires AllDigits(a) && AllDigits(b) && AllDigits(c) && AllDigits(d) && |b| == |c| == |d| == 5
    ensures AllDigits(a + b + c + d)
    ensures DecimalValue(a + b + c + d)
            == ((DecimalValue(a) * 100000 + DecimalValue(b)) * 100000 + DecimalValue(c)) * 100000 + DecimalValue(d)
  {
    assert Pow10(3) == 1000 && Pow10(5) == 100000;
    ValueOfJoined(a, b);
    ValueOfJoined(a + b, c);
    ValueOfJoined(a + b + c, d);
  }

  // A last position of 2^64 - 1 is refused wherever the range starts.
  lemma WrappingLastRefused(first: string, last: string, total: nat)
    requires IntRange(first, Some(last)).WellFormed() && DecimalValue(last) == U64_LIMIT - 1 && total < U64_LIMIT
    ensures ParseRange(IntRange(first, Some(last)).Text(), total).Err?
  {
    IntTextUnwraps(first, Some(last), total);
    DigitsParse(first);
    DigitsParse(last);
  }

  lemma InstanceText(last: string)
    ensures IntRange("0", Some(last)).Text() == "bytes=0-" + last
  {
    assert "bytes=" + ("0" + ("-" + last)) == "bytes=0-" + last;
  }

  // "bytes=0-18446744073709551615" asks for a whole file. Every file that is not
  // empty has that range, and the code refuses it.
  lemma WholeFileRefused(total: nat)
    requires 0 < total < U64_LIMIT
    ensures var spec := IntRange("0", Some(LARGEST_U64));
            spec.WellFormed() && spec.Text() == "bytes=0-" + LARGEST_U64
            && spec.Positions(total) == Some((0, total)) && ParseRange("bytes=0-" + LARGEST_U64, total).Err?
  {
    LargestU64();
    InstanceText(LARGEST_U64);
    OneMoreDigit("", '0');
    assert "" + ['0'] == "0";
    WrappingLastRefused("0", LARGEST_U64, total);
  }
}
