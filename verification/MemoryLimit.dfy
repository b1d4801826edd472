/** Writing a memory limit and reading it back (resource-scheduler/src/executor.rs and monitor.rs). */
module MemoryLimit {
  import opened Options

  const U64_MAX: nat := 0xFFFF_FFFF_FFFF_FFFF
  const BYTES_PER_MB: nat := 1024 * 1024

  // ---- decimal text

  function Digit(d: nat): char
    requires d < 10
  {
    '0' + d as char
  }

  function Decimal(n: nat): string {
    if n < 10 then [Digit(n)] else Decimal(n / 10) + [Digit(n % 10)]
  }

  /** Reads digits into `acc`; fails on any other character and on leaving the 64-bit range. */
  function ParseDigits(s: string, acc: nat): Option<nat> {
    if s == [] then Some(acc)
    else if !('0' <= s[0] <= '9') then None
    else
      var next := acc * 10 + (s[0] as nat - '0' as nat);
      if next > U64_MAX then None else ParseDigits(s[1..], next)
  }

  /** `str::parse::<u64>`: at least one digit, and a plus sign is allowed in front. */
  function ParseU64(s: string): Option<nat> {
    var digits := if s != [] && s[0] == '+' then s[1..] else s;
    if digits == [] then None else ParseDigits(digits, 0)
  }

  /** The characters with the Unicode property White_Space. */
  predicate IsWhitespace(c: char) {
    || '\U{0009}' <= c <= '\U{000D}' || c == ' ' || c == '\U{0085}' || c == '\U{00A0}' || c == '\U{1680}'
    || '\U{2000}' <= c <= '\U{200A}' || c == '\U{2028}' || c == '\U{2029}' || c == '\U{202F}'
    || c == '\U{205F}' || c == '\U{3000}'
  }

  function TrimStart(s: string): string {
    if s != [] && IsWhitespace(s[0]) then TrimStart(s[1..]) else s
  }

  function TrimEnd(s: string): string {
    if s != [] && IsWhitespace(s[|s| - 1]) then TrimEnd(s[..|s| - 1]) else s
  }

  /** `read_u64_file` on the content of the file. */
  function ReadU64(content: string): Option<nat> {
    var trimmed := TrimEnd(TrimStart(content));
    if trimmed == "max" then Some(U64_MAX) else ParseU64(trimmed)
  }

  /** The number in a file, or the default if there is no such file or no number in it. */
  function NumberOr(content: Option<string>, default: nat): nat {
    if content.Some? then ReadU64(content.value).GetOr(default) else default
  }

  /** The limit the monitor reports; an unreadable file counts as no limit. */
  function ReportedLimitMb(content: Option<string>): nat {
    NumberOr(content, U64_MAX) / BYTES_PER_MB
  }

  /** The limit in bytes; the product wraps at 64 bits. */
  function LimitBytes(limitMb: nat): (bytes: nat)
    ensures bytes <= U64_MAX
  {
    limitMb * BYTES_PER_MB % (U64_MAX + 1)
  }

  /** What is written for a limit. */
  function LimitText(limitMb: nat): string {
    if limitMb == 0 then "max" else Decimal(LimitBytes(limitMb))
  }

  predicate ContainsDotDot(s: string) {
    exists i :: 0 <= i < |s| - 1 && s[i] == '.' && s[i + 1] == '.'
  }

  /** `validate_app_id`, with the Unicode test for letters and digits as a parameter. */
  predicate ValidAppId(app: string, isAlphanumeric: char -> bool) {
    && app != []
    && '/' !in app && !ContainsDotDot(app) && '\0' !in app
    && forall i :: 0 <= i < |app| ==> isAlphanumeric(app[i]) || app[i] == '-' || app[i] == '_' || app[i] == '.'
  }

  /** The `memory.max` files under the slice, by app. */
  class CgroupTree {
    var memoryMax: map<string, string>

    constructor (files: map<string, string>)
      ensures memoryMax == files
    {
      memoryMax := files;
    }

    /** Fails without a write on a bad id and on a file that is not there. */
    method SetMemoryLimit(app: string, limitMb: nat, isAlphanumeric: char -> bool) returns (ok: bool)
      modifies this
      ensures ok <==> ValidAppId(app, isAlphanumeric) && app in old(memoryMax)
      ensures memoryMax == if ok then old(memoryMax)[app := LimitText(limitMb)] else old(memoryMax)
    {
      if !ValidAppId(app, isAlphanumeric) {
        return false;
      }
      if app !in memoryMax {
        return false;
      }
      memoryMax := memoryMax[app := LimitText(limitMb)];
      return true;
    }
  }

  // ---- print and parse

  ghost predicate OnlyDigits(s: string) {
    forall i :: 0 <= i < |s| ==> '0' <= s[i] <= '9'
  }

  ghost predicate AllDigits(s: string) {
    s != [] && OnlyDigits(s)
  }

  lemma {:induction false} DecimalIsDigits(n: nat)
    ensures AllDigits(Decimal(n))
  {
    if n >= 10 {
      DecimalIsDigits(n / 10);
    }
  }

  lemma {:induction false} ParseOneMore(s: string, c: char, acc: nat)
    ensures ParseDigits(s + [c], acc)
         == var r := ParseDigits(s, acc);
            if r.Some? && '0' <= c <= '9' && r.value * 10 + (c as nat - '0' as nat) <= U64_MAX
            then Some(r.value * 10 + (c as nat - '0' as nat)) else None
  {
    if s == [] {
      assert s + [c] == [c] && [c][1..] == [];
    } else {
      assert (s + [c])[1..] == s[1..] + [c];
      if '0' <= s[0] <= '9' && acc * 10 + (s[0] as nat - '0' as nat) <= U64_MAX {
        ParseOneMore(s[1..], c, acc * 10 + (s[0] as nat - '0' as nat));
      }
    }
  }

  /** Parsing takes back what printing made, for every 64-bit number. */
  lemma {:induction false} DecimalRoundTrip(n: nat)
    requires n <= U64_MAX
    ensures ParseDigits(Decimal(n), 0) == Some(n)
  {
    if n < 10 {
      assert Decimal(n)[1..] == [];
    } else {
      DecimalRoundTrip(n / 10);
      ParseOneMore(Decimal(n / 10), Digit(n % 10), 0);
    }
  }

  ghost predicate AllWhitespace(s: string) {
    forall i :: 0 <= i < |s| ==> IsWhitespace(s[i])
  }

  lemma {:induction false} TrimDropsWhitespace(before: string, text: string, after: string)
    requires AllWhitespace(before) && AllWhitespace(after)
    requires text != [] && !IsWhitespace(text[0]) && !IsWhitespace(text[|text| - 1])
    ensures TrimEnd(TrimStart(before + text + after)) == text
    decreases |before| + |after|
  {
    var s := before + text + after;
    if before != [] {
      assert s[0] == before[0] && s[1..] == before[1..] + text + after;
      TrimDropsWhitespace(before[1..], text, after);
    } else if after != [] {
      assert s == text + after && s[0] == text[0];
      TrimEndDrops(text, after);
    } else {
      assert s == text;
    }
  }

  lemma {:induction false} TrimEndDrops(text: string, after: string)
    requires AllWhitespace(after)
    requires text != [] && !IsWhitespace(text[|text| - 1])
    ensures TrimEnd(text + after) == text
  {
    if after == [] {
      assert text + after == text;
    } else {
      assert (text + after)[..|text + after| - 1] == text + after[..|after| - 1];
      TrimEndDrops(text, after[..|after| - 1]);
    }
  }

  lemma ReadsNumber(n: nat, before: string, after: string)
    requires n <= U64_MAX && AllWhitespace(before) && AllWhitespace(after)
    ensures ReadU64(before + Decimal(n) + after) == Some(n)
  {
    DecimalIsDigits(n);
    DecimalRoundTrip(n);
    TrimDropsWhitespace(before, Decimal(n), after);
    assert Decimal(n)[0] != 'm' && Decimal(n)[0] != '+';
    assert "max"[0] == 'm';
  }

  lemma WrapIsExactBelow(limitMb: nat)
    requires limitMb <= U64_MAX
    ensures LimitBytes(limitMb) / BYTES_PER_MB == limitMb <==> limitMb < 0x1000_0000_0000
  {
    if limitMb < 0x1000_0000_0000 {
      assert limitMb * BYTES_PER_MB <= U64_MAX;
    }
  }

  /**
   * For every 64-bit limit, and whatever blank space the file has around the text: the limit that
   * was written is the limit that is reported exactly when it lies in 1 .. 2^44 - 1. Zero, written
   * as "max", reads back as 2^44 - 1, and larger limits wrap around.
   */
  lemma LimitRoundTrip(limitMb: nat, before: string, after: string)
    requires limitMb <= U64_MAX && AllWhitespace(before) && AllWhitespace(after)
    ensures ReportedLimitMb(Some(before + LimitText(limitMb) + after)) == limitMb
       <==> 1 <= limitMb < 0x1000_0000_0000
    ensures limitMb == 0 ==> ReportedLimitMb(Some(before + LimitText(limitMb) + after)) == 0xFFF_FFFF_FFFF
  {
    if limitMb == 0 {
      TrimDropsWhitespace(before, "max", after);
    } else {
      WrapIsExactBelow(limitMb);
      ReadsNumber(LimitBytes(limitMb), before, after);
    }
  }

  // ---- which texts are read, and as what

  /** The number a list of digits stands for. */
  ghost function ValueOf(digits: string): nat
    requires OnlyDigits(digits)
  {
    if digits == [] then 0 else ValueOf(digits[..|digits| - 1]) * 10 + (digits[|digits| - 1] as nat - '0' as nat)
  }

  /** Digits are read as the number they stand for if that fits 64 bits; any other text is refused. */
  lemma {:induction false} DigitsAreExact(s: string)
    ensures ParseDigits(s, 0)
         == if OnlyDigits(s) && ValueOf(s) <= U64_MAX then Some(ValueOf(s)) else None
  {
    if s != [] {
      var most, c := s[..|s| - 1], s[|s| - 1];
      assert s == most + [c];
      DigitsAreExact(most);
      ParseOneMore(most, c, 0);
    }
  }

  /** The text is "max", for the largest number, or decimal digits for `n`, with a plus sign or without. */
  ghost predicate Names(text: string, n: nat) {
    || (text == "max" && n == U64_MAX)
    || (AllDigits(text) && ValueOf(text) == n <= U64_MAX)
    || (text != [] && text[0] == '+' && AllDigits(text[1..]) && ValueOf(text[1..]) == n <= U64_MAX)
  }

  lemma NamesAreStripped(text: string, n: nat)
    requires Names(text, n)
    ensures text != [] && !IsWhitespace(text[0]) && !IsWhitespace(text[|text| - 1])
  {
    assert "max"[0] == 'm' && "max"[2] == 'x';
    assert text[0] == '+' ==> text[|text| - 1] == text[1..][|text| - 2] || text == "+";
  }

  /** What trimming takes off is blank space. */
  lemma {:induction false} TrimTakesWhitespace(s: string) returns (before: string, after: string)
    ensures AllWhitespace(before) && AllWhitespace(after)
    ensures s == before + TrimEnd(TrimStart(s)) + after
    decreases |s|
  {
    if s != [] && IsWhitespace(s[0]) {
      before, after := TrimTakesWhitespace(s[1..]);
      before := [s[0]] + before;
    } else {
      after := TrimEndTakes(s);
      before := [];
    }
  }

  lemma {:induction false} TrimEndTakes(s: string) returns (after: string)
    ensures AllWhitespace(after) && s == TrimEnd(s) + after
  {
    if s != [] && IsWhitespace(s[|s| - 1]) {
      after := TrimEndTakes(s[..|s| - 1]);
      after := after + [s[|s| - 1]];
    } else {
      after := [];
    }
  }

  lemma TrimmedIsRead(text: string, n: nat)
    ensures Names(text, n) <==> (if text == "max" then Some(U64_MAX) else ParseU64(text)) == Some(n)
  {
    assert "max"[0] == 'm';
    DigitsAreExact(text);
    if text != [] {
      DigitsAreExact(text[1..]);
    }
  }

  /**
   * A file reads as `n` exactly when its text is a name for `n` and blank space around it; every
   * other text, a number beyond 64 bits included, counts as unreadable.
   */
  lemma ReadingIsExact(content: string, n: nat)
    ensures ReadU64(content) == Some(n)
       <==> exists before, text, after :: content == before + text + after
              && AllWhitespace(before) && AllWhitespace(after) && Names(text, n)
  {
    TrimmedIsRead(TrimEnd(TrimStart(content)), n);
    if ReadU64(content) == Some(n) {
      var before, after := TrimTakesWhitespace(content);
      assert Names(TrimEnd(TrimStart(content)), n);
    }
    forall before: string, text: string, after: string
      | content == before + text + after && AllWhitespace(before) && AllWhitespace(after) && Names(text, n)
      ensures ReadU64(content) == Some(n)
    {
      NamesAreStripped(text, n);
      TrimDropsWhitespace(before, text, after);
    }
  }

  /** Two dots in a row, wherever they are in the name, make it invalid, and so does any other character. */
  lemma ValidNames(app: string, isAlphanumeric: char -> bool)
    ensures ValidAppId(app, isAlphanumeric)
       <==> app != [] && (forall c :: c in app ==>
              c != '/' && c != '\0' && (isAlphanumeric(c) || c == '-' || c == '_' || c == '.'))
            && !exists before, after :: app == before + ".." + after
  {
    if ContainsDotDot(app) {
      var i :| 0 <= i < |app| - 1 && app[i] == '.' && app[i + 1] == '.';
      assert app == app[..i] + ".." + app[i + 2..];
    }
    if before: string, after: string :| app == before + ".." + after {
      assert app[|before|] == '.' && app[|before| + 1] == '.';
    }
  }
}
