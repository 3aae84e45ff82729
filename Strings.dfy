/**
 * The C library string helpers the shell leans on, stated over `seq<char>`:
 * `isspace`, `strtok`/`strtok_r` (one step and the full token list),
 * whitespace trimming, `strncpy`-style truncation, `atoi`, the decimal
 * rendering `printf("%d")` produces, and the order `strcmp` imposes.
 *
 * A C string is modelled by its contents (the characters before the NUL).
 */
module Strings {

  datatype Option<T> = None | Some(value: T)

  /** `isspace` in the C locale. */
  predicate IsSpace(c: char) {
    c == ' ' || c == '\t' || c == '\n' || c == '\U{B}' || c == '\U{C}' || c == '\r'
  }

  /** The delimiter set " \t\r\n" used by `tokenize` and `parse_cmd_group`. */
  const Blanks: set<char> := {' ', '\t', '\r', '\n'}

  /** The delimiter set " \t" used by the line dispatch in main.c. */
  const SpaceTab: set<char> := {' ', '\t'}

  predicate NoneIn(s: string, delims: set<char>) {
    forall k :: 0 <= k < |s| ==> s[k] !in delims
  }

  predicate AllIn(s: string, delims: set<char>) {
    forall k :: 0 <= k < |s| ==> s[k] in delims
  }

  // ---------------------------------------------------------------------------
  // strtok
  // ---------------------------------------------------------------------------

  /**
   * The token `strtok` cuts from the front of `s` once leading delimiters are
   * gone: the longest delimiter-free prefix, and what remains after the single
   * delimiter that ends it (that delimiter is overwritten by NUL).
   */
  function Span(s: string, delims: set<char>): (r: (string, string))
    ensures NoneIn(r.0, delims)
    ensures (r.0 == s && r.1 == [])
         || (|r.0| < |s| && s[|r.0|] in delims && s == r.0 + [s[|r.0|]] + r.1)
  {
    if |s| == 0 then ([], [])
    else if s[0] in delims then ([], s[1..])
    else
      var (t, rest) := Span(s[1..], delims);
      assert s == [s[0]] + s[1..];
      assert NoneIn([s[0]] + t, delims) by {
        forall k | 0 <= k < |t| + 1 ensures ([s[0]] + t)[k] !in delims {
          if k > 0 { assert ([s[0]] + t)[k] == t[k - 1]; }
        }
      }
      if t == s[1..] then
        ([s[0]] + t, rest)
      else
        assert s[1..] == t + [s[1..][|t|]] + rest;
        assert s[|[s[0]] + t|] == s[1..][|t|];
        assert s == ([s[0]] + t) + [s[1..][|t|]] + rest;
        ([s[0]] + t, rest)
  }

  /**
   * One call of `strtok`: skip leading delimiters; nothing is left when only
   * delimiters remain; otherwise the next token and the text after it.
   */
  function Strtok(s: string, delims: set<char>): (r: Option<(string, string)>)
    ensures r.None? <==> AllIn(s, delims)
    ensures r.Some? ==> |r.value.0| > 0 && NoneIn(r.value.0, delims) && |r.value.1| < |s|
  {
    if |s| == 0 then None
    else if s[0] in delims then
      var r := Strtok(s[1..], delims);
      assert AllIn(s[1..], delims) ==> AllIn(s, delims) by {
        if AllIn(s[1..], delims) {
          forall k | 0 <= k < |s| ensures s[k] in delims {
            if k > 0 { assert s[k] == s[1..][k - 1]; }
          }
        }
      }
      r
    else Some(Span(s, delims))
  }

  /** The successive tokens `strtok` returns until it returns NULL. */
  function Fields(s: string, delims: set<char>): seq<string>
    decreases |s|
  {
    match Strtok(s, delims)
    case None => []
    case Some((t, rest)) => [t] + Fields(rest, delims)
  }

  /** Every token is non-empty and contains no delimiter. */
  lemma {:induction false} FieldsAreWords(s: string, delims: set<char>)
    ensures forall k :: 0 <= k < |Fields(s, delims)| ==>
      |Fields(s, delims)[k]| > 0 && NoneIn(Fields(s, delims)[k], delims)
    decreases |s|
  {
    match Strtok(s, delims)
    case None =>
    case Some((t, rest)) =>
      FieldsAreWords(rest, delims);
  }

  /** A string of delimiters only has no tokens. */
  lemma FieldsOfDelimiters(s: string, delims: set<char>)
    requires AllIn(s, delims)
    ensures Fields(s, delims) == []
  {
  }

  /** A non-empty delimiter-free word is its own single token. */
  lemma FieldsOfWord(w: string, delims: set<char>)
    requires |w| > 0 && NoneIn(w, delims)
    ensures Fields(w, delims) == [w]
  {
    assert Span(w, delims).0 == w;
    assert Fields([], delims) == [];
  }

  lemma AppendAssoc<T>(a: seq<T>, b: seq<T>, c: seq<T>)
    ensures a + (b + c) == (a + b) + c
  {
  }

  /** One `strtok` call peels the first token off the token list. */
  lemma FieldsStep(s: string, delims: set<char>)
    ensures Strtok(s, delims).None? ==> Fields(s, delims) == []
    ensures Strtok(s, delims).Some? ==>
      Fields(s, delims) == [Strtok(s, delims).value.0] + Fields(Strtok(s, delims).value.1, delims)
  {
  }

  /** `FieldsStep` for a token already in hand. */
  lemma FieldsCons(s: string, delims: set<char>, t: string, rest: string)
    requires Strtok(s, delims) == Some((t, rest))
    ensures Fields(s, delims) == [t] + Fields(rest, delims)
  {
    FieldsStep(s, delims);
  }

  lemma {:induction false} SpanAppend(a: string, d: char, b: string, delims: set<char>)
    requires d in delims
    ensures Span(a + [d] + b, delims) ==
      if Span(a, delims).0 == a && Span(a, delims).1 == [] && !(|a| > 0 && a[|a| - 1] in delims && |Span(a, delims).0| < |a|)
      then (a, b)
      else (Span(a, delims).0, Span(a, delims).1 + [d] + b)
  {
    if |a| == 0 {
      assert (a + [d] + b)[1..] == b;
    } else if a[0] in delims {
      assert (a + [d] + b)[1..] == a[1..] + [d] + b;
    } else {
      assert (a + [d] + b)[1..] == a[1..] + [d] + b;
      SpanAppend(a[1..], d, b, delims);
    }
  }

  /** Fields depends only on the first strtok step. */
  lemma FieldsSkipDelimiter(s: string, delims: set<char>)
    requires |s| > 0 && s[0] in delims
    ensures Fields(s, delims) == Fields(s[1..], delims)
  {
  }

  /**
   * Tokens are exactly the pieces between delimiters: splitting the input at
   * any delimiter splits the token list at the same place.
   */
  lemma {:induction false} FieldsSplit(a: string, d: char, b: string, delims: set<char>)
    requires d in delims
    ensures Fields(a + [d] + b, delims) == Fields(a, delims) + Fields(b, delims)
    decreases |a|
  {
    var s := a + [d] + b;
    if |a| == 0 {
      assert s[1..] == b;
      FieldsSkipDelimiter(s, delims);
      assert Fields(a, delims) == [];
    } else if a[0] in delims {
      assert s[1..] == a[1..] + [d] + b;
      FieldsSkipDelimiter(s, delims);
      FieldsSkipDelimiter(a, delims);
      FieldsSplit(a[1..], d, b, delims);
    } else {
      SpanAppend(a, d, b, delims);
      var (t, rest) := Span(a, delims);
      FieldsStep(s, delims);
      FieldsStep(a, delims);
      if t == a && rest == [] {
        assert Fields(s, delims) == [a] + Fields(b, delims);
        assert Fields(a, delims) == [a] + Fields([], delims);
      } else {
        assert |rest| < |a|;
        assert Fields(s, delims) == [t] + Fields(rest + [d] + b, delims);
        FieldsSplit(rest, d, b, delims);
        AppendAssoc([t], Fields(rest, delims), Fields(b, delims));
      }
    }
  }

  // ---------------------------------------------------------------------------
  // Trimming and truncation
  // ---------------------------------------------------------------------------

  /** Drops leading `isspace` characters (the `while (isspace(*p)) p++` idiom). */
  function TrimLeft(s: string): (r: string)
    ensures |r| <= |s| && r == s[|s| - |r|..]
    ensures |r| == 0 || !IsSpace(r[0])
    ensures forall k :: 0 <= k < |s| - |r| ==> IsSpace(s[k])
  {
    if |s| > 0 && IsSpace(s[0]) then TrimLeft(s[1..]) else s
  }

  /** Drops trailing `isspace` characters. */
  function TrimRight(s: string): (r: string)
    ensures |r| <= |s| && r == s[..|r|]
    ensures |r| == 0 || !IsSpace(r[|r| - 1])
    ensures forall k :: |r| <= k < |s| ==> IsSpace(s[k])
  {
    if |s| > 0 && IsSpace(s[|s| - 1]) then TrimRight(s[..|s| - 1]) else s
  }

  function Trim(s: string): string {
    TrimRight(TrimLeft(s))
  }

  /** What fits in a buffer of `n + 1` bytes filled by `strncpy` and NUL-terminated. */
  function Truncate(s: string, n: nat): (r: string)
    ensures |r| <= n && r <= s
    ensures |s| <= n ==> r == s
  {
    if |s| <= n then s else s[..n]
  }

  // ---------------------------------------------------------------------------
  // atoi and decimal rendering
  // ---------------------------------------------------------------------------

  predicate IsDigit(c: char) {
    '0' <= c <= '9'
  }

  /** The leading run of decimal digits. */
  function DigitPrefix(s: string): (r: string)
    ensures r <= s && forall k :: 0 <= k < |r| ==> IsDigit(r[k])
    ensures |r| == |s| || !IsDigit(s[|r|])
  {
    if |s| > 0 && IsDigit(s[0]) then [s[0]] + DigitPrefix(s[1..]) else []
  }

  /** The value of a string of decimal digits, most significant first. */
  function DigitsValue(ds: string): nat
    requires forall k :: 0 <= k < |ds| ==> IsDigit(ds[k])
  {
    if |ds| == 0 then 0
    else
      assert IsDigit(ds[|ds| - 1]);
      DigitsValue(ds[..|ds| - 1]) * 10 + (ds[|ds| - 1] as int - '0' as int)
  }

  function SkipSpaces(s: string): (r: string)
    ensures |r| <= |s|
  {
    if |s| > 0 && IsSpace(s[0]) then SkipSpaces(s[1..]) else s
  }

  /**
   * `atoi`: leading white space, an optional sign, then the longest run of
   * digits; 0 when there are none. The value is the mathematical one (C's
   * behaviour on overflow is undefined).
   */
  function Atoi(s: string): int {
    var t := SkipSpaces(s);
    if |t| > 0 && t[0] == '-' then -(DigitsValue(DigitPrefix(t[1..])) as int)
    else if |t| > 0 && t[0] == '+' then DigitsValue(DigitPrefix(t[1..]))
    else DigitsValue(DigitPrefix(t))
  }

  /** `printf("%d")` of a non-negative value. */
  function Decimal(n: nat): (r: string)
    ensures |r| > 0 && forall k :: 0 <= k < |r| ==> IsDigit(r[k])
  {
    if n < 10 then [('0' as int + n) as char]
    else Decimal(n / 10) + [('0' as int + n % 10) as char]
  }

  /** `printf("%d")` of any `int`. */
  function IntToString(n: int): string {
    if n < 0 then "-" + Decimal(-n) else Decimal(n)
  }

  lemma {:induction false} DecimalValue(n: nat)
    ensures DigitsValue(Decimal(n)) == n
  {
    if n >= 10 {
      DecimalValue(n / 10);
      var d := Decimal(n);
      assert d[..|d| - 1] == Decimal(n / 10);
    }
  }

  lemma {:induction false} DigitPrefixOfDigits(ds: string)
    requires forall k :: 0 <= k < |ds| ==> IsDigit(ds[k])
    ensures DigitPrefix(ds) == ds
  {
    if |ds| > 0 {
      DigitPrefixOfDigits(ds[1..]);
      assert ds == [ds[0]] + ds[1..];
    }
  }

  /** `atoi` reads back what `printf("%d")` writes. */
  lemma AtoiDecimal(n: int)
    ensures Atoi(IntToString(n)) == n
  {
    var m: nat := if n < 0 then -n else n;
    DecimalValue(m);
    DigitPrefixOfDigits(Decimal(m));
    if n < 0 {
      assert IntToString(n)[1..] == Decimal(m);
    }
  }

  // ---------------------------------------------------------------------------
  // strcmp order
  // ---------------------------------------------------------------------------

  /**
   * `strcmp(a, b) <= 0`: lexicographic comparison by character code, a proper
   * prefix ordered first.
   */
  predicate StrLe(a: string, b: string) {
    if |a| == 0 then true
    else if |b| == 0 then false
    else if a[0] < b[0] then true
    else if a[0] > b[0] then false
    else StrLe(a[1..], b[1..])
  }

  lemma {:induction false} StrLeTotal(a: string, b: string)
    ensures StrLe(a, b) || StrLe(b, a)
  {
    if |a| > 0 && |b| > 0 && a[0] == b[0] {
      StrLeTotal(a[1..], b[1..]);
    }
  }

  lemma {:induction false} StrLeTransitive(a: string, b: string, c: string)
    requires StrLe(a, b) && StrLe(b, c)
    ensures StrLe(a, c)
  {
    if |a| > 0 && |b| > 0 && |c| > 0 && a[0] == b[0] && b[0] == c[0] {
      StrLeTransitive(a[1..], b[1..], c[1..]);
    }
  }

  lemma {:induction false} StrLeReflexive(a: string)
    ensures StrLe(a, a)
  {
    if |a| > 0 {
      StrLeReflexive(a[1..]);
    }
  }

  lemma {:induction false} StrLeAntisymmetric(a: string, b: string)
    requires StrLe(a, b) && StrLe(b, a)
    ensures a == b
  {
    if |a| > 0 && |b| > 0 {
      StrLeAntisymmetric(a[1..], b[1..]);
      assert a == [a[0]] + a[1..] && b == [b[0]] + b[1..];
    }
  }
}
