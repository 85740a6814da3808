/**
 * The start-up configuration of `src/api.py`, read from the environment:
 * the signing secret (required), the signing algorithm (default `HS256`)
 * and the token lifetime in minutes (default 30), each with Python's own
 * fallbacks: `os.environ[...]` raises on a missing key, `value or default`
 * falls back on a missing or empty value, and `int(...)` rejects malformed
 * numbers.
 */
module ApiConfig {
  import opened Wrappers

  const DEFAULT_ALGORITHM: string := "HS256"
  const DEFAULT_EXPIRE_MINUTES: int := 30

  datatype Config = Config(secretKey: string, algorithm: string, expireMinutes: int)

  datatype ConfigError =
    | MissingSecretKey                 // the KeyError of `os.environ["SECRET_KEY"]`
    | InvalidExpireMinutes(value: string)  // the ValueError of `int(...)`

  /** `os.environ.get(name) or default`: a missing or empty value is falsy. */
  function OrDefault(value: Option<string>, default: string): (r: string)
    ensures value.Some? && value.value != [] ==> r == value.value
    ensures value == None || value == Some([]) ==> r == default
  {
    if value.Some? && value.value != [] then value.value else default
  }

  /** The ASCII whitespace `int()` skips around a number: space, tab, line
      feed, vertical tab, form feed and carriage return. */
  predicate IsSpace(c: char)
  {
    c == ' ' || 9 <= c as int <= 13
  }

  /** The most digits `int()` reads from a string (CPython's default
      `sys.get_int_max_str_digits()`); more is a ValueError. */
  const INT_MAX_STR_DIGITS: nat := 4300

  function StripLeft(s: string): string
    decreases |s|
  {
    if s != [] && IsSpace(s[0]) then StripLeft(s[1..]) else s
  }

  function StripRight(s: string): string
    decreases |s|
  {
    if s != [] && IsSpace(s[|s| - 1]) then StripRight(s[..|s| - 1]) else s
  }

  /** Stripping keeps only characters of the input. */
  lemma {:induction false} StrippedFromInput(s: string)
    ensures forall c :: c in StripRight(StripLeft(s)) ==> c in s
  {
    StripLeftFromInput(s);
    StripRightFromInput(StripLeft(s));
  }

  lemma {:induction false} StripLeftFromInput(s: string)
    ensures forall c :: c in StripLeft(s) ==> c in s
    decreases |s|
  {
    if s != [] && IsSpace(s[0]) {
      StripLeftFromInput(s[1..]);
    }
  }

  lemma {:induction false} StripRightFromInput(s: string)
    ensures forall c :: c in StripRight(s) ==> c in s
    decreases |s|
  {
    if s != [] && IsSpace(s[|s| - 1]) {
      StripRightFromInput(s[..|s| - 1]);
    }
  }

  predicate IsDigit(c: char)
  {
    '0' <= c <= '9'
  }

  /** Python's decimal literal body: digits, with single underscores allowed
      between two digits. */
  predicate ValidDigits(s: string)
  {
    && |s| > 0
    && IsDigit(s[0])
    && IsDigit(s[|s| - 1])
    && (forall i :: 0 <= i < |s| ==> IsDigit(s[i]) || s[i] == '_')
    && (forall i :: 0 <= i < |s| - 1 ==> s[i] != '_' || s[i + 1] != '_')
  }

  function DigitValue(c: char): nat
  {
    if IsDigit(c) then c as int - '0' as int else 0
  }

  /** The digits of a literal body, underscores not counted. */
  function DigitCount(s: string): nat
    decreases |s|
  {
    if s == [] then 0
    else DigitCount(s[..|s| - 1]) + (if s[|s| - 1] == '_' then 0 else 1)
  }

  /** The number the digits spell, underscores skipped. */
  function DigitsValue(s: string): nat
    decreases |s|
  {
    if s == [] then 0
    else if s[|s| - 1] == '_' then DigitsValue(s[..|s| - 1])
    else 10 * DigitsValue(s[..|s| - 1]) + DigitValue(s[|s| - 1])
  }

  /** `int(s)` for a string: surrounding whitespace stripped, an optional sign,
      then at most `INT_MAX_STR_DIGITS` decimal digits; `None` where Python
      raises ValueError. In particular a string without a digit is refused. */
  function PythonInt(s: string): (r: Option<int>)
    ensures r.Some? ==> exists i :: 0 <= i < |s| && IsDigit(s[i])
  {
    var t := StripRight(StripLeft(s));
    StrippedFromInput(s);
    if |t| > 0 && (t[0] == '+' || t[0] == '-') then
      if ValidDigits(t[1..]) && DigitCount(t[1..]) <= INT_MAX_STR_DIGITS then
        assert t[1..][0] == t[1] && t[1] in t;
        Some(if t[0] == '-' then -(DigitsValue(t[1..]) as int) else DigitsValue(t[1..]))
      else None
    else if ValidDigits(t) && DigitCount(t) <= INT_MAX_STR_DIGITS then
      assert t[0] in t;
      Some(DigitsValue(t))
    else None
  }

  /** `int(os.environ.get("ACCESS_TOKEN_EXPIRE_MINUTES") or 30)`. */
  function ExpireMinutes(value: Option<string>): (r: Result<int, ConfigError>)
    ensures value == None || value == Some([]) ==> r == Success(DEFAULT_EXPIRE_MINUTES)
    ensures value.Some? && value.value != [] ==>
      (r.Success? <==> PythonInt(value.value).Some?)
    ensures value.Some? && value.value != [] && r.Success? ==> r.value == PythonInt(value.value).value
    ensures r.Failure? ==> value.Some? && r.error == InvalidExpireMinutes(value.value)
  {
    if value == None || value == Some([]) then Success(DEFAULT_EXPIRE_MINUTES)
    else match PythonInt(value.value)
      case Some(m) => Success(m)
      case None => Failure(InvalidExpireMinutes(value.value))
  }

  function Lookup(env: map<string, string>, name: string): Option<string>
  {
    if name in env then Some(env[name]) else None
  }

  /** The three module-level settings, in the order the module computes them. */
  function LoadConfig(env: map<string, string>): (r: Result<Config, ConfigError>)
    ensures "SECRET_KEY" !in env ==> r == Failure(MissingSecretKey)
    ensures r.Success? ==>
      && r.value.secretKey == env["SECRET_KEY"]
      && r.value.algorithm == OrDefault(Lookup(env, "ALGORITHM"), DEFAULT_ALGORITHM)
      && Success(r.value.expireMinutes) == ExpireMinutes(Lookup(env, "ACCESS_TOKEN_EXPIRE_MINUTES"))
    ensures "SECRET_KEY" in env ==> (r.Success? <==> ExpireMinutes(Lookup(env, "ACCESS_TOKEN_EXPIRE_MINUTES")).Success?)
  {
    if "SECRET_KEY" !in env then Failure(MissingSecretKey)
    else
      var algorithm := OrDefault(Lookup(env, "ALGORITHM"), DEFAULT_ALGORITHM);
      match ExpireMinutes(Lookup(env, "ACCESS_TOKEN_EXPIRE_MINUTES"))
      case Success(m) => Success(Config(env["SECRET_KEY"], algorithm, m))
      case Failure(e) => Failure(e)
  }

  /** The decimal spelling of a natural number. */
  function Decimal(n: nat): (s: string)
    decreases n
  {
    if n < 10 then [('0' as int + n) as char]
    else Decimal(n / 10) + [('0' as int + n % 10) as char]
  }

  lemma {:induction false} DecimalIsDigits(n: nat)
    ensures |Decimal(n)| > 0
    ensures forall i :: 0 <= i < |Decimal(n)| ==> IsDigit(Decimal(n)[i])
    decreases n
  {
    if n >= 10 {
      DecimalIsDigits(n / 10);
    }
  }

  lemma {:induction false} DecimalValue(n: nat)
    ensures DigitsValue(Decimal(n)) == n
    decreases n
  {
    if n >= 10 {
      var s := Decimal(n);
      assert s[..|s| - 1] == Decimal(n / 10);
      DecimalValue(n / 10);
    } else {
      assert Decimal(n)[..0] == [];
    }
  }

  /** `int()` reads back the decimal spelling of every natural number short
      enough for its digit limit. */
  lemma PythonIntReadsDecimal(n: nat)
    requires |Decimal(n)| <= INT_MAX_STR_DIGITS
    ensures PythonInt(Decimal(n)) == Some(n)
  {
    DecimalIsLiteral(n);
    DecimalValue(n);
    PlainDigitsRead(Decimal(n));
  }

  /** The same with a leading `+` or `-` sign. */
  lemma PythonIntReadsSignedDecimal(sign: char, n: nat)
    requires sign == '+' || sign == '-'
    requires |Decimal(n)| <= INT_MAX_STR_DIGITS
    ensures PythonInt([sign] + Decimal(n)) == Some(if sign == '-' then -(n as int) else n)
  {
    DecimalIsLiteral(n);
    DecimalValue(n);
    var t := [sign] + Decimal(n);
    assert t[0] == sign && t[1..] == Decimal(n);
    SignedDigitsRead(t);
  }

  /** A literal with more digits than the limit is refused, however well
      formed it is. */
  lemma OverlongLiteralRefused(s: string)
    requires StripRight(StripLeft(s)) == s
    requires ValidDigits(s) && DigitCount(s) > INT_MAX_STR_DIGITS
    ensures PythonInt(s) == None
  {
  }

  /** A decimal spelling is a literal body without underscores. */
  lemma DecimalIsLiteral(n: nat)
    ensures ValidDigits(Decimal(n)) && '_' !in Decimal(n)
  {
    DecimalIsDigits(n);
  }

  lemma PlainDigitsRead(s: string)
    requires ValidDigits(s) && '_' !in s && |s| <= INT_MAX_STR_DIGITS
    ensures PythonInt(s) == Some(DigitsValue(s))
  {
    NothingToStrip(s);
    EveryCharCounts(s);
  }

  lemma SignedDigitsRead(t: string)
    requires |t| > 0 && (t[0] == '+' || t[0] == '-')
    requires ValidDigits(t[1..]) && '_' !in t[1..] && |t[1..]| <= INT_MAX_STR_DIGITS
    ensures PythonInt(t) ==
      Some(if t[0] == '-' then -(DigitsValue(t[1..]) as int) else DigitsValue(t[1..]))
  {
    NothingToStrip(t);
    EveryCharCounts(t[1..]);
    SignedBodyRead(t);
  }

  /** Without underscores every character is a counted digit. */
  lemma {:induction false} EveryCharCounts(s: string)
    requires '_' !in s
    ensures DigitCount(s) == |s|
    decreases |s|
  {
    if s != [] {
      assert s[|s| - 1] in s;
      assert forall c :: c in s[..|s| - 1] ==> c in s;
      EveryCharCounts(s[..|s| - 1]);
    }
  }

  /** Unstripped text made of a sign and a literal body is read as such. */
  lemma SignedBodyRead(t: string)
    requires |t| > 0 && (t[0] == '+' || t[0] == '-')
    requires StripRight(StripLeft(t)) == t
    requires ValidDigits(t[1..]) && DigitCount(t[1..]) <= INT_MAX_STR_DIGITS
    ensures PythonInt(t) ==
      Some(if t[0] == '-' then -(DigitsValue(t[1..]) as int) else DigitsValue(t[1..]))
  {
  }

  /** A string that starts and ends with a non-space character is not
      stripped. */
  lemma NothingToStrip(s: string)
    requires s != [] && !IsSpace(s[0]) && !IsSpace(s[|s| - 1])
    ensures StripRight(StripLeft(s)) == s
  {
  }

  /** An unset or empty setting gives 30 minutes; `"0"` gives 0 minutes,
      which `create_access_token` later treats as no lifetime at all. */
  lemma ExpireMinutesCornerCases()
    ensures ExpireMinutes(None) == Success(30)
    ensures ExpireMinutes(Some("")) == Success(30)
    ensures ExpireMinutes(Some("0")) == Success(0)
    ensures ExpireMinutes(Some("abc")).Failure?
  {
  }
}
