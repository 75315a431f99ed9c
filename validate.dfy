/**
 * Checks on user input (src/validate.rs): the show-name validator
 * `valid_name` and the selection grammar `parse_range`. The regular
 * expressions of the source are written out as predicates on text.
 */
module Validate {
  import opened Wrappers
  import opened Strings

  // ================================================================ valid_name

  /** The characters of the class `[<>:"/\|?*\\]`. */
  const ReservedChars: set<char> := {'<', '>', ':', '"', '/', '\\', '|', '?', '*'}

  /** Bytes in the UTF-8 encoding of one character. */
  function Utf8Width(c: char): nat
  {
    if c as int < 0x80 then 1 else if c as int < 0x800 then 2 else if c as int < 0x1_0000 then 3 else 4
  }

  /** `str::len()`: length in UTF-8 bytes, never fewer than the characters. */
  function ByteLen(s: string): (n: nat)
    ensures n >= |s|
  {
    if s == [] then 0 else ByteLen(s[..|s| - 1]) + Utf8Width(s[|s| - 1])
  }

  predicate IsAscii(s: string)
  {
    forall i :: 0 <= i < |s| ==> s[i] as int < 0x80
  }

  predicate ReservedCharAt(s: string, i: int)
  {
    0 <= i < |s| && s[i] in ReservedChars
  }

  /** `COM` or `LPT` followed by a digit, starting at `i`. */
  predicate NumberedDeviceAt(s: string, i: int)
  {
    0 <= i && i + 4 <= |s| && (s[i..i + 3] == "COM" || s[i..i + 3] == "LPT") && IsDigit(s[i + 3])
  }

  /** Some pattern of the validator's regular-expression set matches somewhere in `s`. */
  predicate MatchesReserved(s: string)
  {
    (exists i :: 0 <= i < |s| && ReservedCharAt(s, i)) ||
    (exists i :: 0 <= i < |s| && NumberedDeviceAt(s, i)) ||
    Contains(s, "NUL") || Contains(s, "PRN") || Contains(s, "AUX")
  }

  /**
   * The source evaluates `name.chars().nth(name.len() - 2).unwrap()` only when
   * the earlier tests are all false; that expression panics unless the byte
   * length is at least 2 and the byte length minus 2 is a character index.
   */
  predicate ValidNameDefined(name: string)
  {
    |name| == 0 || MatchesReserved(name) || '\0' in name ||
    (ByteLen(name) >= 2 && ByteLen(name) - 2 < |name|)
  }

  /**
   * `valid_name`: rejects the empty name, reserved characters and device
   * names, NUL, and a `.` or space at character index `len() - 2`. For an
   * ASCII name that index is the second-to-last character (see ValidNameAscii).
   */
  function ValidName(name: string): bool
    requires ValidNameDefined(name)
  {
    if |name| == 0 || MatchesReserved(name) || '\0' in name then false
    else
      var c := name[ByteLen(name) - 2];
      !(c == '.' || c == ' ')
  }

  lemma {:induction false} AsciiByteLen(s: string)
    requires IsAscii(s)
    ensures ByteLen(s) == |s|
  {
    if s != [] {
      assert IsAscii(s[..|s| - 1]);
      AsciiByteLen(s[..|s| - 1]);
    }
  }

  /**
   * For ASCII names of two or more characters the validator accepts exactly
   * the names that are free of reserved characters, device names and NUL and
   * whose second-to-last character is neither `.` nor a space.
   */
  lemma ValidNameAscii(name: string)
    requires IsAscii(name) && |name| >= 2
    ensures ValidNameDefined(name)
    ensures ValidName(name) <==>
            (forall i :: 0 <= i < |name| ==> name[i] !in ReservedChars && name[i] != '\0') &&
            (forall i :: !NumberedDeviceAt(name, i)) &&
            !Contains(name, "NUL") && !Contains(name, "PRN") && !Contains(name, "AUX") &&
            name[|name| - 2] != '.' && name[|name| - 2] != ' '
  {
    AsciiByteLen(name);
    if exists i :: 0 <= i < |name| && name[i] in ReservedChars {
      var i :| 0 <= i < |name| && name[i] in ReservedChars;
      assert ReservedCharAt(name, i);
    }
  }

  /** A one-character ASCII name the source evaluates without panicking is rejected. */
  lemma SingleCharacterRejected(name: string)
    requires |name| == 1 && IsAscii(name) && ValidNameDefined(name)
    ensures !ValidName(name)
  {
    assert ByteLen(name) == Utf8Width(name[0]);
  }

  /** Each of `NUL`, `PRN`, `AUX` anywhere in the name (case-sensitive) rejects it. */
  lemma DeviceNameRejected(name: string, device: string, i: nat)
    requires device == "NUL" || device == "PRN" || device == "AUX"
    requires OccursAt(name, device, i)
    ensures ValidNameDefined(name) && !ValidName(name)
  {
    ContainsIff(name, device);
  }

  // ================================================================ parse_range

  /** `usize::MAX` on a 64-bit target. */
  const USIZE_MAX: nat := 0xFFFF_FFFF_FFFF_FFFF

  /** `usize::from_str` failed: the digits do not fit. */
  datatype ParseError = ParseIntError

  predicate IsNumber(p: string) { |p| > 0 && AllDigits(p) }

  /** `^\d+-\d+$`: splitting at `-` leaves exactly two non-empty digit strings. */
  predicate IsDualEnded(t: string)
  {
    var ps := Split(t, '-');
    |ps| == 2 && IsNumber(ps[0]) && IsNumber(ps[1])
  }

  /** `^\d+-$`. */
  predicate IsLeftEnded(t: string)
  {
    var ps := Split(t, '-');
    |ps| == 2 && IsNumber(ps[0]) && ps[1] == ""
  }

  /** `^+-\d$`, that is a `-` and then exactly one digit. */
  predicate IsRightEnded(t: string)
  {
    var ps := Split(t, '-');
    |ps| == 2 && ps[0] == "" && |ps[1]| == 1 && IsNumber(ps[1])
  }

  /** `^(\d+,)+\d$`: at least two comma-separated numbers, the last of one digit. */
  predicate IsCommaList(t: string)
  {
    var ps := Split(t, ',');
    |ps| >= 2 && (forall p :: p in ps ==> IsNumber(p)) && |ps[|ps| - 1]| == 1
  }

  /** `^\d$`. */
  predicate IsSingle(t: string)
  {
    |t| == 1 && IsDigit(t[0])
  }

  /** `p.parse::<usize>()` on a digit string. */
  function ParseUsize(p: string): (r: Result<nat, ParseError>)
    requires IsNumber(p)
    ensures r.Ok? <==> DecimalValue(p) <= USIZE_MAX
    ensures r.Ok? ==> r.value == DecimalValue(p)
  {
    if DecimalValue(p) <= USIZE_MAX then Ok(DecimalValue(p)) else Err(ParseIntError)
  }

  /** Parsing `v.to_string()` gives `v` back when it fits in `usize`, and an error otherwise. */
  lemma ParseUsizeOfDecimal(v: nat)
    ensures IsNumber(Decimal(v))
    ensures ParseUsize(Decimal(v)) == if v <= USIZE_MAX then Ok(v) else Err(ParseIntError)
  {
    DecimalRoundTrip(v);
  }

  /** `parse::<usize>()` accepts leading zeros: `"0" + p` parses as `p` does. */
  lemma ParseUsizeLeadingZero(p: string)
    requires IsNumber(p)
    ensures IsNumber("0" + p) && ParseUsize("0" + p) == ParseUsize(p)
  {
    LeadingZero(p);
  }

  /** `lo..hi` as a sequence. */
  function Interval(lo: nat, hi: nat): seq<nat>
  {
    if lo <= hi then seq(hi - lo, k requires 0 <= k < hi - lo => lo + k) else []
  }

  /** The values of a list of numbers, in order. */
  function Values(ps: seq<string>): (r: seq<nat>)
    requires forall p :: p in ps ==> IsNumber(p)
    ensures |r| == |ps|
  {
    if ps == [] then []
    else
      var last := ps[|ps| - 1];
      assert last in ps && IsNumber(last);
      Values(ps[..|ps| - 1]) + [DecimalValue(last)]
  }

  /** The elements of `xs` that are below `n`, in order. */
  function Below(n: nat, xs: seq<nat>): seq<nat>
  {
    if xs == [] then [] else Below(n, xs[..|xs| - 1]) + (if xs[|xs| - 1] < n then [xs[|xs| - 1]] else [])
  }

  /** `L-R` adds `L..=R` when both ends are below `n` and `L <= R`; a bound too large for `usize` is an error. */
  function DualSelection(n: nat, ps: seq<string>): Result<seq<nat>, ParseError>
    requires |ps| == 2 && IsNumber(ps[0]) && IsNumber(ps[1])
  {
    match ParseUsize(ps[0])
    case Err(e) => Err(e)
    case Ok(left) =>
      match ParseUsize(ps[1])
      case Err(e) => Err(e)
      case Ok(right) => Ok(if left < n && right < n && left <= right then Interval(left, right + 1) else [])
  }

  /** `L-` adds `L..n` when `L < n`; a bound too large for `usize` is an error. */
  function LeftSelection(n: nat, ps: seq<string>): Result<seq<nat>, ParseError>
    requires |ps| >= 1 && IsNumber(ps[0])
  {
    match ParseUsize(ps[0])
    case Err(e) => Err(e)
    case Ok(left) => Ok(if left < n then Interval(left, n) else [])
  }

  /** `-d` adds `0..=d` when `d < n`. */
  function RightSelection(n: nat, ps: seq<string>): Result<seq<nat>, ParseError>
    requires |ps| >= 2 && IsNumber(ps[1])
  {
    var right := DigitValue(ps[1][0]);
    Ok(if right < n then Interval(0, right + 1) else [])
  }

  /** A comma list adds each listed number below `n`, in order. */
  function CommaSelection(n: nat, ps: seq<string>): Result<seq<nat>, ParseError>
    requires forall p :: p in ps ==> IsNumber(p)
  {
    Ok(Below(n, Values(ps)))
  }

  /** A single digit `d` adds `d` when `d < n`. */
  function SingleSelection(n: nat, t: string): Result<seq<nat>, ParseError>
    requires IsSingle(t)
  {
    var num := DigitValue(t[0]);
    Ok(if num < n then [num] else [])
  }

  /** What one token adds to the selection of `n` files: the first form it matches decides; no form adds nothing. */
  function TokenSelection(n: nat, t: string): Result<seq<nat>, ParseError>
  {
    if IsDualEnded(t) then DualSelection(n, Split(t, '-'))
    else if IsLeftEnded(t) then LeftSelection(n, Split(t, '-'))
    else if IsRightEnded(t) then RightSelection(n, Split(t, '-'))
    else if IsCommaList(t) then CommaSelection(n, Split(t, ','))
    else if IsSingle(t) then SingleSelection(n, t)
    else Ok([])
  }

  /** `fileNumbers` followed by what a token selects, or that token's error. */
  function Appended(fileNumbers: seq<nat>, step: Result<seq<nat>, ParseError>): Result<seq<nat>, ParseError>
  {
    match step
    case Err(e) => Err(e)
    case Ok(q) => Ok(fileNumbers + q)
  }

  /** The contributions of the tokens, concatenated in token order; the first error wins. */
  function SelectTokens(n: nat, ts: seq<string>): Result<seq<nat>, ParseError>
  {
    if ts == [] then Ok([])
    else
      match SelectTokens(n, ts[..|ts| - 1])
      case Err(e) => Err(e)
      case Ok(p) => Appended(p, TokenSelection(n, ts[|ts| - 1]))
  }

  /** The meaning of `parse_range(n, range)`: all files for the empty string, otherwise token by token. */
  function Selection(n: nat, range: string): Result<seq<nat>, ParseError>
  {
    if range == "" then Ok(Interval(0, n)) else SelectTokens(n, Tokens(range))
  }

  /**
   * The items of every comma list the token loop reaches fit in `usize`
   * (otherwise `parse().unwrap()` panics); a comma list after a token that
   * already failed is never parsed.
   */
  predicate CommaListsFit(n: nat, range: string)
  {
    forall k :: 0 <= k < |Tokens(range)| && SelectTokens(n, Tokens(range)[..k]).Ok? && IsCommaList(Tokens(range)[k]) ==>
      forall p :: p in Split(Tokens(range)[k], ',') ==> DecimalValue(p) <= USIZE_MAX
  }

  /** An error in a prefix of the tokens is the error of the whole line. */
  lemma {:induction false} SelectTokensErrorPersists(n: nat, ts: seq<string>, k: nat)
    requires k <= |ts| && SelectTokens(n, ts[..k]).Err?
    ensures SelectTokens(n, ts) == SelectTokens(n, ts[..k])
    decreases |ts|
  {
    if k < |ts| {
      assert ts[..|ts| - 1][..k] == ts[..k];
      SelectTokensErrorPersists(n, ts[..|ts| - 1], k);
    } else {
      assert ts[..k] == ts;
    }
  }

  // The methods below are the push loops of `parse_range` itself. Each is
  // proved to append what the matching function above (`DualSelection`,
  // `LeftSelection`, `CommaSelection`, `TokenSelection`) selects; the lemmas
  // about the selection grammar are stated over those functions.

  /** The `for num in lo..hi { file_numbers.push(num) }` loops of `parse_range`. */
  method PushInterval(fileNumbers: seq<nat>, lo: nat, hi: nat) returns (r: seq<nat>)
    requires lo <= hi
    ensures r == fileNumbers + Interval(lo, hi)
  {
    r := fileNumbers;
    for num := lo to hi
      invariant r == fileNumbers + Interval(lo, num)
    {
      assert Interval(lo, num + 1) == Interval(lo, num) + [num];
      r := r + [num];
    }
  }

  method PushDual(amountFiles: nat, nums: seq<string>, fileNumbers: seq<nat>) returns (r: Result<seq<nat>, ParseError>)
    requires |nums| == 2 && IsNumber(nums[0]) && IsNumber(nums[1])
    ensures r == Appended(fileNumbers, DualSelection(amountFiles, nums))
  {
    var left := ParseUsize(nums[0]);
    if left.Err? {
      return Err(left.error);
    }
    var right := ParseUsize(nums[1]);
    if right.Err? {
      return Err(right.error);
    }
    if left.value < amountFiles && right.value < amountFiles && left.value <= right.value {
      var pushed := PushInterval(fileNumbers, left.value, right.value + 1);
      return Ok(pushed);
    }
    return Ok(fileNumbers + []);
  }

  method PushLeft(amountFiles: nat, nums: seq<string>, fileNumbers: seq<nat>) returns (r: Result<seq<nat>, ParseError>)
    requires |nums| >= 1 && IsNumber(nums[0])
    ensures r == Appended(fileNumbers, LeftSelection(amountFiles, nums))
  {
    var left := ParseUsize(nums[0]);
    if left.Err? {
      return Err(left.error);
    }
    if left.value < amountFiles {
      var pushed := PushInterval(fileNumbers, left.value, amountFiles);
      return Ok(pushed);
    }
    return Ok(fileNumbers + []);
  }

  method PushCommaList(amountFiles: nat, nums: seq<string>, fileNumbers: seq<nat>) returns (r: Result<seq<nat>, ParseError>)
    requires forall p :: p in nums ==> IsNumber(p) && DecimalValue(p) <= USIZE_MAX
    ensures r == Appended(fileNumbers, CommaSelection(amountFiles, nums))
  {
    var pushed := fileNumbers;
    for j := 0 to |nums|
      invariant pushed == fileNumbers + Below(amountFiles, Values(nums[..j]))
    {
      assert nums[..j + 1][..j] == nums[..j];
      var num := DecimalValue(nums[j]);
      if num < amountFiles {
        pushed := pushed + [num];
      }
    }
    assert nums[..|nums|] == nums;
    return Ok(pushed);
  }

  /** One pass of the token loop of `parse_range`: appends what token `t` selects, or fails. */
  method PushToken(amountFiles: nat, t: string, fileNumbers: seq<nat>) returns (r: Result<seq<nat>, ParseError>)
    requires IsCommaList(t) ==> forall p :: p in Split(t, ',') ==> DecimalValue(p) <= USIZE_MAX
    ensures r == Appended(fileNumbers, TokenSelection(amountFiles, t))
  {
    if IsDualEnded(t) {
      r := PushDual(amountFiles, Split(t, '-'), fileNumbers);
    } else if IsLeftEnded(t) {
      r := PushLeft(amountFiles, Split(t, '-'), fileNumbers);
    } else if IsRightEnded(t) {
      var nums := Split(t, '-');
      var right := DigitValue(nums[1][0]);
      if right < amountFiles {
        var pushed := PushInterval(fileNumbers, 0, right + 1);
        r := Ok(pushed);
      } else {
        r := Ok(fileNumbers + []);
      }
    } else if IsCommaList(t) {
      r := PushCommaList(amountFiles, Split(t, ','), fileNumbers);
    } else if IsSingle(t) {
      var num := DigitValue(t[0]);
      if num < amountFiles {
        r := Ok(fileNumbers + [num]);
      } else {
        r := Ok(fileNumbers + []);
      }
    } else {
      r := Ok(fileNumbers + []);
    }
  }

  /** `parse_range`: pushes the selected indices into a vector, token by token. */
  method ParseRange(amountFiles: nat, range: string) returns (r: Result<seq<nat>, ParseError>)
    requires CommaListsFit(amountFiles, range)
    ensures r == Selection(amountFiles, range)
  {
    var fileNumbers: seq<nat> := [];
    var ranges := Tokens(range);
    if range == "" {
      fileNumbers := PushInterval(fileNumbers, 0, amountFiles);
      assert fileNumbers == Interval(0, amountFiles);
    } else {
      for i := 0 to |ranges|
        invariant SelectTokens(amountFiles, ranges[..i]) == Ok(fileNumbers)
      {
        assert ranges[..i + 1][..i] == ranges[..i];
        var step := PushToken(amountFiles, ranges[i], fileNumbers);
        if step.Err? {
          SelectTokensErrorPersists(amountFiles, ranges, i + 1);
          return Err(step.error);
        }
        fileNumbers := step.value;
      }
      assert ranges[..|ranges|] == ranges;
    }
    r := Ok(fileNumbers);
  }

  // ---------------------------------------------------------- properties

  /** What a line of tokens selects: the contributions of `a` and then of `b`, unless one fails. */
  function Then(a: Result<seq<nat>, ParseError>, b: Result<seq<nat>, ParseError>): Result<seq<nat>, ParseError>
  {
    match a
    case Err(e) => Err(e)
    case Ok(p) => Appended(p, b)
  }

  lemma {:induction false} BelowMembers(n: nat, xs: seq<nat>)
    ensures forall x :: x in Below(n, xs) <==> x in xs && x < n
  {
    if xs != [] {
      BelowMembers(n, xs[..|xs| - 1]);
      assert xs == xs[..|xs| - 1] + [xs[|xs| - 1]];
    }
  }

  lemma TokenSelectionInBounds(n: nat, t: string)
    ensures TokenSelection(n, t).Ok? ==> forall k :: 0 <= k < |TokenSelection(n, t).value| ==> TokenSelection(n, t).value[k] < n
  {
    if !IsDualEnded(t) && !IsLeftEnded(t) && !IsRightEnded(t) && IsCommaList(t) {
      var v := Below(n, Values(Split(t, ',')));
      BelowMembers(n, Values(Split(t, ',')));
      assert forall k :: 0 <= k < |v| ==> v[k] in v;
    }
  }

  lemma {:induction false} SelectTokensInBounds(n: nat, ts: seq<string>)
    ensures SelectTokens(n, ts).Ok? ==> forall k :: 0 <= k < |SelectTokens(n, ts).value| ==> SelectTokens(n, ts).value[k] < n
  {
    if ts != [] {
      SelectTokensInBounds(n, ts[..|ts| - 1]);
      TokenSelectionInBounds(n, ts[|ts| - 1]);
    }
  }

  /** Whatever the line, every selected index names a file of the listing. */
  lemma SelectionInBounds(n: nat, range: string)
    ensures Selection(n, range).Ok? ==> forall k :: 0 <= k < |Selection(n, range).value| ==> Selection(n, range).value[k] < n
  {
    if range != "" {
      SelectTokensInBounds(n, Tokens(range));
    }
  }

  /** The empty line selects every file, in ascending order. */
  lemma EmptySelectsEveryFile(n: nat)
    ensures Selection(n, "").Ok?
    ensures |Selection(n, "").value| == n
    ensures forall k :: 0 <= k < n ==> Selection(n, "").value[k] == k
  {
  }

  lemma SelectTokensLast(n: nat, ts: seq<string>)
    requires ts != []
    ensures SelectTokens(n, ts) == Then(SelectTokens(n, ts[..|ts| - 1]), TokenSelection(n, ts[|ts| - 1]))
  {
  }

  lemma ThenAssociative(a: Result<seq<nat>, ParseError>, b: Result<seq<nat>, ParseError>, c: Result<seq<nat>, ParseError>)
    ensures Then(Then(a, b), c) == Then(a, Then(b, c))
  {
    if a.Ok? && b.Ok? && c.Ok? {
      assert (a.value + b.value) + c.value == a.value + (b.value + c.value);
    }
  }

  lemma {:induction false} SelectTokensAppend(n: nat, ts: seq<string>, us: seq<string>)
    ensures SelectTokens(n, ts + us) == Then(SelectTokens(n, ts), SelectTokens(n, us))
    decreases |us|
  {
    if us == [] {
      assert ts + us == ts;
      if SelectTokens(n, ts).Ok? {
        assert SelectTokens(n, ts).value + [] == SelectTokens(n, ts).value;
      }
    } else {
      var all := ts + us;
      var init, last := us[..|us| - 1], us[|us| - 1];
      assert all[..|all| - 1] == ts + init;
      assert all[|all| - 1] == last;
      SelectTokensLast(n, all);
      SelectTokensLast(n, us);
      SelectTokensAppend(n, ts, init);
      ThenAssociative(SelectTokens(n, ts), SelectTokens(n, init), TokenSelection(n, last));
    }
  }

  /**
   * Tokens are processed left to right and their contributions concatenated,
   * repeats included; the first token that fails fails the whole line.
   */
  lemma SelectionOfTwoParts(n: nat, a: string, c: char, b: string)
    requires a != "" && b != "" && IsAsciiWhitespace(c)
    ensures Selection(n, a + [c] + b) == Then(Selection(n, a), Selection(n, b))
  {
    TokensAroundSpace(a, c, b);
    SelectTokensAppend(n, Tokens(a), Tokens(b));
  }

  /** `SelectionOfTwoParts` for a line split at its `k`-th character. */
  lemma SelectionAtSpace(n: nat, s: string, k: nat)
    requires 0 < k < |s| - 1 && IsAsciiWhitespace(s[k])
    ensures Selection(n, s) == Then(Selection(n, s[..k]), Selection(n, s[k + 1..]))
  {
    assert s == s[..k] + [s[k]] + s[k + 1..];
    SelectionOfTwoParts(n, s[..k], s[k], s[k + 1..]);
  }

  lemma DigitsAreWord(s: string)
    requires IsNumber(s)
    ensures IsWord(s) && '-' !in s && ',' !in s
  {
    forall i | 0 <= i < |s| ensures s[i] != '-' && s[i] != ',' && !IsAsciiWhitespace(s[i]) {
      assert IsDigit(s[i]);
    }
  }

  /** A line that is one token selects what that token selects. */
  lemma OneTokenLine(n: nat, t: string)
    requires IsWord(t)
    ensures Selection(n, t) == TokenSelection(n, t)
  {
    WordIsOneToken(t);
    assert t != "";
    assert Selection(n, t) == SelectTokens(n, [t]);
    assert [t][..0] == [] && [t][0] == t;
    assert SelectTokens(n, []) == Ok([]);
    if TokenSelection(n, t).Ok? {
      assert [] + TokenSelection(n, t).value == TokenSelection(n, t).value;
    }
  }

  /** Joining digit strings with a separator other than whitespace gives one token. */
  lemma {:induction false} JoinedNumbersAreWord(ps: seq<string>, sep: char)
    requires |ps| >= 1 && !IsAsciiWhitespace(sep)
    requires forall p :: p in ps ==> IsNumber(p) || p == ""
    ensures IsWord(Join(ps, sep)) || Join(ps, sep) == ""
    ensures |ps| >= 2 ==> IsWord(Join(ps, sep))
  {
    if ps[0] != "" {
      DigitsAreWord(ps[0]);
    }
    if |ps| > 1 {
      JoinedNumbersAreWord(ps[1..], sep);
      var rest := Join(ps[1..], sep);
      var j := ps[0] + [sep] + rest;
      forall i | 0 <= i < |j| ensures !IsAsciiWhitespace(j[i]) {
        if i > |ps[0]| { assert j[i] == rest[i - |ps[0]| - 1]; }
      }
    }
  }

  lemma {:induction false} JoinLacksChar(ps: seq<string>, sep: char, c: char)
    requires |ps| >= 1 && sep != c
    requires forall p :: p in ps ==> c !in p
    ensures c !in Join(ps, sep)
  {
    if |ps| > 1 {
      JoinLacksChar(ps[1..], sep, c);
    }
  }

  /** `ps` joined with `sep` splits back into `ps`, forms one token and contains no `other` separator. */
  lemma NumbersToken(ps: seq<string>, sep: char, other: char)
    requires |ps| >= 2 && (sep == '-' || sep == ',') && (other == '-' || other == ',') && sep != other
    requires forall p :: p in ps ==> IsNumber(p) || p == ""
    ensures Split(Join(ps, sep), sep) == ps
    ensures Split(Join(ps, sep), other) == [Join(ps, sep)]
    ensures IsWord(Join(ps, sep))
  {
    forall p | p in ps ensures sep !in p && other !in p {
      if p != "" { DigitsAreWord(p); }
    }
    SplitJoin(ps, sep);
    JoinedNumbersAreWord(ps, sep);
    JoinLacksChar(ps, sep, other);
    IndexOfAbsent(Join(ps, sep), other);
    var t := Join(ps, sep);
    assert Split(t, other) == [t];
  }

  /** What `L-R` selects for the values `l` and `r` of its bounds. */
  function DualBounds(n: nat, l: nat, r: nat): Result<seq<nat>, ParseError>
  {
    if l > USIZE_MAX || r > USIZE_MAX then Err(ParseIntError)
    else Ok(if l < n && r < n && l <= r then Interval(l, r + 1) else [])
  }

  lemma DualSelectionMeaning(n: nat, a: string, b: string)
    requires IsNumber(a) && IsNumber(b)
    ensures DualSelection(n, [a, b]) == DualBounds(n, DecimalValue(a), DecimalValue(b))
  {
    var ps := [a, b];
    assert ps[0] == a && ps[1] == b;
    var l, r := DecimalValue(a), DecimalValue(b);
    if l > USIZE_MAX {
      assert ParseUsize(a) == Err(ParseIntError);
      assert DualSelection(n, ps) == Err(ParseIntError) == DualBounds(n, l, r);
    } else if r > USIZE_MAX {
      assert ParseUsize(a) == Ok(l) && ParseUsize(b) == Err(ParseIntError);
      assert DualSelection(n, ps) == Err(ParseIntError) == DualBounds(n, l, r);
    } else {
      assert ParseUsize(a) == Ok(l) && ParseUsize(b) == Ok(r);
      var q := if l < n && r < n && l <= r then Interval(l, r + 1) else [];
      assert DualSelection(n, ps) == Ok(q) == DualBounds(n, l, r);
    }
  }

  /**
   * `L-R` selects `L..=R` when both are below `n` and `L <= R`, nothing
   * otherwise, and fails when a bound exceeds `usize`.
   */
  lemma DualEndedRange(n: nat, a: string, b: string)
    requires IsNumber(a) && IsNumber(b)
    ensures Selection(n, a + "-" + b) == DualBounds(n, DecimalValue(a), DecimalValue(b))
  {
    DualToken(n, a, b);
    OneTokenLine(n, a + "-" + b);
    DualSelectionMeaning(n, a, b);
  }

  lemma DualToken(n: nat, a: string, b: string)
    requires IsNumber(a) && IsNumber(b)
    ensures IsWord(a + "-" + b)
    ensures TokenSelection(n, a + "-" + b) == DualSelection(n, [a, b])
  {
    var t := a + "-" + b;
    assert Join([a, b], '-') == t;
    NumbersToken([a, b], '-', ',');
    assert IsDualEnded(t);
  }

  /**
   * A bound too large for `usize` ends the line at its token: the `?` returns
   * before any later comma list is parsed, so no `unwrap` can panic there.
   */
  lemma OverflowEndsLine(n: nat, a: string, b: string, c: char, y: string)
    requires IsNumber(a) && IsNumber(b) && DecimalValue(a) > USIZE_MAX
    requires IsAsciiWhitespace(c) && IsWord(y)
    ensures CommaListsFit(n, a + "-" + b + [c] + y)
    ensures Selection(n, a + "-" + b + [c] + y) == Err(ParseIntError)
  {
    var x := a + "-" + b;
    DualToken(n, a, b);
    DualSelectionMeaning(n, a, b);
    assert Join([a, b], '-') == x;
    NumbersToken([a, b], '-', ',');
    TokensAroundSpace(x, c, y);
    WordIsOneToken(x);
    WordIsOneToken(y);
    var line := x + [c] + y;
    var ts := Tokens(line);
    assert ts == [x, y];
    assert ts[..1] == [x] && ts[..1][..0] == [];
    assert SelectTokens(n, ts[..1]) == Err(ParseIntError);
    assert !IsCommaList(ts[0]);
    SelectTokensErrorPersists(n, ts, 1);
    assert line == a + "-" + b + [c] + y;
  }

  /** `L-` selects `L..n` when `L < n`, nothing otherwise, and fails when `L` exceeds `usize`. */
  lemma LeftEndedRange(n: nat, a: string)
    requires IsNumber(a)
    ensures Selection(n, a + "-") ==
            var l := DecimalValue(a);
            if l > USIZE_MAX then Err(ParseIntError) else Ok(if l < n then Interval(l, n) else [])
  {
    var t := a + "-";
    assert Join([a, ""], '-') == t;
    NumbersToken([a, ""], '-', ',');
    assert !IsDualEnded(t) && IsLeftEnded(t);
    OneTokenLine(n, t);
  }

  /** `-d` with one digit selects `0..=d` when `d < n`. */
  lemma RightEndedRange(n: nat, c: char)
    requires IsDigit(c)
    ensures Selection(n, "-" + [c]) ==
            var d := DigitValue(c);
            Ok(if d < n then Interval(0, d + 1) else [])
  {
    var t := "-" + [c];
    assert Join(["", [c]], '-') == t;
    NumbersToken(["", [c]], '-', ',');
    assert !IsDualEnded(t) && !IsLeftEnded(t) && IsRightEnded(t);
    OneTokenLine(n, t);
  }

  /** `-R` with two or more digits matches no form and selects nothing. */
  lemma LongRightEndedRangeIgnored(n: nat, b: string)
    requires IsNumber(b) && |b| >= 2
    ensures Selection(n, "-" + b) == Ok([])
  {
    var t := "-" + b;
    assert Join(["", b], '-') == t;
    NumbersToken(["", b], '-', ',');
    assert !IsDualEnded(t) && !IsLeftEnded(t) && !IsRightEnded(t) && !IsCommaList(t) && !IsSingle(t);
    OneTokenLine(n, t);
  }

  /** A single digit `d` selects `d` when `d < n`. */
  lemma SingleIndex(n: nat, c: char)
    requires IsDigit(c)
    ensures Selection(n, [c]) == var d := DigitValue(c); Ok(if d < n then [d] else [])
  {
    var t := [c];
    IndexOfAbsent(t, '-');
    IndexOfAbsent(t, ',');
    DigitsAreWord(t);
    assert Split(t, '-') == [t] && Split(t, ',') == [t];
    assert !IsDualEnded(t) && !IsLeftEnded(t) && !IsRightEnded(t) && !IsCommaList(t) && IsSingle(t);
    OneTokenLine(n, t);
  }

  /** A number of two or more digits on its own matches no form and selects nothing. */
  lemma LongSingleIndexIgnored(n: nat, a: string)
    requires IsNumber(a) && |a| >= 2
    ensures Selection(n, a) == Ok([])
  {
    DigitsAreWord(a);
    IndexOfAbsent(a, '-');
    IndexOfAbsent(a, ',');
    assert Split(a, '-') == [a] && Split(a, ',') == [a];
    assert !IsDualEnded(a) && !IsLeftEnded(a) && !IsRightEnded(a) && !IsCommaList(a) && !IsSingle(a);
    OneTokenLine(n, a);
  }

  /** A comma list whose last item is one digit selects each listed number below `n`, in order. */
  lemma CommaListSelects(n: nat, ps: seq<string>, c: char)
    requires |ps| >= 1 && IsDigit(c)
    requires forall p :: p in ps ==> IsNumber(p)
    ensures Selection(n, Join(ps + [[c]], ',')) == Ok(Below(n, Values(ps + [[c]])))
  {
    var qs := ps + [[c]];
    var t := Join(qs, ',');
    assert forall p :: p in qs ==> IsNumber(p);
    NumbersToken(qs, ',', '-');
    assert !IsDualEnded(t) && !IsLeftEnded(t) && !IsRightEnded(t) && IsCommaList(t);
    OneTokenLine(n, t);
  }

  /** A comma list whose last item has two or more digits matches no form and selects nothing. */
  lemma LongLastCommaItemIgnored(n: nat, a: string, b: string)
    requires IsNumber(a) && IsNumber(b) && |b| >= 2
    ensures Selection(n, a + "," + b) == Ok([])
  {
    var t := a + "," + b;
    assert Join([a, b], ',') == t;
    NumbersToken([a, b], ',', '-');
    assert !IsDualEnded(t) && !IsLeftEnded(t) && !IsRightEnded(t) && !IsCommaList(t) && !IsSingle(t);
    OneTokenLine(n, t);
  }

  /** Worked example: a range and a single index on one line. */
  lemma RangeAndSingleExample()
    ensures Selection(5, "0-2 4") == Ok([0, 1, 2, 4])
  {
    DualExample();
    SingleExample();
    var line := "0-2 4";
    assert line[..3] == "0-2" && line[4..] == "4";
    SelectionAtSpace(5, line, 3);
    assert [0, 1, 2] + [4] == [0, 1, 2, 4];
  }

  lemma DualExample()
    ensures Selection(5, "0-2") == Ok([0, 1, 2])
  {
    DualEndedRange(5, "0", "2");
    assert "0" + "-" + "2" == "0-2";
    assert DecimalValue("0") == 0 && DecimalValue("2") == 2;
    assert Interval(0, 3) == [0, 1, 2];
  }

  lemma SingleExample()
    ensures Selection(5, "4") == Ok([4])
  {
    SingleIndex(5, '4');
    assert DigitValue('4') == 4;
  }

  /** Worked example: an open range. */
  lemma OpenRangeExample()
    ensures Selection(5, "3-") == Ok([3, 4])
  {
    LeftEndedRange(5, "3");
    assert "3" + "-" == "3-";
    assert DecimalValue("3") == 3;
    assert Interval(3, 5) == [3, 4];
  }

  /** Worked example: a comma list. */
  lemma CommaListExample()
    ensures Selection(5, "1,3") == Ok([1, 3])
  {
    assert Join(["1"] + [['3']], ',') == "1,3";
    CommaListSelects(5, ["1"], '3');
    assert Values(["1"] + [['3']]) == [1, 3];
    assert Below(5, [1, 3]) == [1, 3];
  }

  /** Worked example: out-of-range and two-digit single indices select nothing. */
  lemma IgnoredIndexExample()
    ensures Selection(5, "9") == Ok([])
    ensures Selection(5, "12") == Ok([])
  {
    SingleIndex(5, '9');
    LongSingleIndexIgnored(5, "12");
  }

  /** Worked example: a repeated index is selected twice. */
  lemma RepeatedIndexExample()
    ensures Selection(5, "1 1") == Ok([1, 1])
  {
    SingleIndex(5, '1');
    assert DigitValue('1') == 1;
    assert Selection(5, "1") == Ok([1]);
    var line := "1 1";
    assert line[..1] == "1" && line[2..] == "1";
    SelectionAtSpace(5, line, 1);
    assert [1] + [1] == [1, 1];
  }
}
