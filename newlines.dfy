/**
 * The newline rewrite shared by `src/images.py` and `script.py`: every line
 * feed of the code is replaced by the token `NEW_LINE`, which the Carbon
 * renderer reads back as a line break (a workaround for a bug of that
 * service). The token is the line feed percent-encoded as `%0A` and then
 * percent-encoded once more, so that its `%` becomes `%25` (RFC 3986,
 * section 2.1). `PercentDecode` below decodes it again.
 */
module Newlines {

  const NEW_LINE: string := "%250A"

  /** What one character of the code becomes. */
  function Piece(c: char): string
  {
    if c == '\n' then NEW_LINE else [c]
  }

  /** `code.replace("\n", NEW_LINE)`. The result holds no line feed. */
  function CompatibleNewlines(code: string): (r: string)
    ensures forall i :: 0 <= i < |r| ==> r[i] != '\n'
    decreases |code|
  {
    if code == [] then [] else Piece(code[0]) + CompatibleNewlines(code[1..])
  }

  /** The code grows by four characters per line feed (one becomes five). */
  lemma {:induction false} LengthGrowsByFourPerNewline(code: string)
    ensures |CompatibleNewlines(code)| == |code| + 4 * multiset(code)['\n']
    decreases |code|
  {
    if code != [] {
      LengthGrowsByFourPerNewline(code[1..]);
      assert code == [code[0]] + code[1..];
      assert multiset(code) == multiset([code[0]]) + multiset(code[1..]);
    }
  }

  /** Code without line feeds goes through unchanged. */
  lemma {:induction false} UnchangedWithoutNewlines(code: string)
    requires '\n' !in code
    ensures CompatibleNewlines(code) == code
    decreases |code|
  {
    if code != [] {
      assert code[0] in code;
      assert forall k :: 0 <= k < |code[1..]| ==> code[1..][k] == code[k + 1];
      UnchangedWithoutNewlines(code[1..]);
      assert code == [code[0]] + code[1..];
    }
  }

  /** The rewrite works piece by piece: it distributes over concatenation. */
  lemma {:induction false} DistributesOverConcat(a: string, b: string)
    ensures CompatibleNewlines(a + b) == CompatibleNewlines(a) + CompatibleNewlines(b)
    decreases |a|
  {
    if a == [] {
      assert a + b == b;
    } else {
      assert (a + b)[0] == a[0];
      assert (a + b)[1..] == a[1..] + b;
      DistributesOverConcat(a[1..], b);
    }
  }

  /** Rewriting twice is rewriting once. */
  lemma Idempotent(code: string)
    ensures CompatibleNewlines(CompatibleNewlines(code)) == CompatibleNewlines(code)
  {
    UnchangedWithoutNewlines(CompatibleNewlines(code));
  }

  /** Two lines joined by a line feed become the two lines joined by the
      token, with no other character altered. */
  lemma TwoLines(line1: string, line2: string)
    requires '\n' !in line1 && '\n' !in line2
    ensures CompatibleNewlines(line1 + "\n" + line2) == line1 + NEW_LINE + line2
  {
    DistributesOverConcat(line1 + "\n", line2);
    DistributesOverConcat(line1, "\n");
    UnchangedWithoutNewlines(line1);
    UnchangedWithoutNewlines(line2);
    assert CompatibleNewlines("\n") == NEW_LINE + CompatibleNewlines([]);
  }

  predicate IsHexDigit(c: char)
  {
    '0' <= c <= '9' || 'A' <= c <= 'F' || 'a' <= c <= 'f'
  }

  function HexValue(c: char): (v: nat)
    requires IsHexDigit(c)
    ensures v < 16
  {
    if '0' <= c <= '9' then c as int - '0' as int
    else if 'A' <= c <= 'F' then c as int - 'A' as int + 10
    else c as int - 'a' as int + 10
  }

  /**
   * One round of percent-decoding (RFC 3986, section 2.1): a `%` followed by
   * two hexadecimal digits stands for the character with that code; every
   * other character stands for itself. Triplets are read as single
   * characters, which is exact for the ASCII range used here.
   */
  function PercentDecode(s: string): string
    decreases |s|
  {
    if |s| >= 3 && s[0] == '%' && IsHexDigit(s[1]) && IsHexDigit(s[2]) then
      [(16 * HexValue(s[1]) + HexValue(s[2])) as char] + PercentDecode(s[3..])
    else if s == [] then []
    else [s[0]] + PercentDecode(s[1..])
  }

  /** The intermediate form: line feeds percent-encoded once, as `%0A`. */
  function PercentEncodedNewlines(s: string): string
    decreases |s|
  {
    if s == [] then []
    else (if s[0] == '\n' then "%0A" else [s[0]]) + PercentEncodedNewlines(s[1..])
  }

  lemma LiteralDecodesToItself(c: char, t: string)
    requires c != '%'
    ensures PercentDecode([c] + t) == [c] + PercentDecode(t)
  {
  }

  /** The token in front of any text decodes to `%0A` in front of it. */
  lemma TokenDecodesOnce(t: string)
    ensures PercentDecode(NEW_LINE + t) == "%0A" + PercentDecode(t)
  {
    var e := NEW_LINE + t;
    assert e[3..] == "0A" + t;
    assert ("0A" + t)[1..] == "A" + t;
    LiteralDecodesToItself('0', "A" + t);
    LiteralDecodesToItself('A', t);
    assert (16 * HexValue('2') + HexValue('5')) as char == '%';
    assert PercentDecode(e) == "%" + PercentDecode("0A" + t);
  }

  /** The first round of decoding turns each token into `%0A`. */
  lemma {:induction false} FirstDecodeRound(s: string)
    requires '%' !in s
    ensures PercentDecode(CompatibleNewlines(s)) == PercentEncodedNewlines(s)
    decreases |s|
  {
    if s != [] {
      var t := CompatibleNewlines(s[1..]);
      assert s[0] in s;
      assert forall k :: 0 <= k < |s[1..]| ==> s[1..][k] == s[k + 1];
      FirstDecodeRound(s[1..]);
      if s[0] == '\n' {
        TokenDecodesOnce(t);
      } else {
        LiteralDecodesToItself(s[0], t);
      }
    }
  }

  /** `%0A` in front of any text decodes to a line feed in front of it. */
  lemma EscapeDecodesOnce(t: string)
    ensures PercentDecode("%0A" + t) == "\n" + PercentDecode(t)
  {
    var e := "%0A" + t;
    assert e[3..] == t;
    assert (16 * HexValue('0') + HexValue('A')) as char == '\n';
  }

  /** The second round turns each `%0A` back into a line feed. */
  lemma {:induction false} SecondDecodeRound(s: string)
    requires '%' !in s
    ensures PercentDecode(PercentEncodedNewlines(s)) == s
    decreases |s|
  {
    if s != [] {
      var t := PercentEncodedNewlines(s[1..]);
      assert s[0] in s;
      assert forall k :: 0 <= k < |s[1..]| ==> s[1..][k] == s[k + 1];
      SecondDecodeRound(s[1..]);
      if s[0] == '\n' {
        EscapeDecodesOnce(t);
      } else {
        LiteralDecodesToItself(s[0], t);
      }
      assert s == [s[0]] + s[1..];
    }
  }

  /** Decoding the rewritten code twice gives back the original code, when
      the code has no `%` of its own. */
  lemma DoubleDecodeRestoresCode(code: string)
    requires '%' !in code
    ensures PercentDecode(PercentDecode(CompatibleNewlines(code))) == code
  {
    FirstDecodeRound(code);
    SecondDecodeRound(code);
  }
}
