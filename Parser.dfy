/**
 * The preliminary syntax check and the tokenizer of shell/src/parser.c.
 *
 * `is_valid_syntax` scans the line once, skipping blanks and tracking whether
 * the last significant character was an operator (`|&;<>`). Its verdict is
 * described here independently by the "effective" characters of the line:
 * the non-blank characters, leaving out every `>` that directly follows
 * another `>` (the scan passes over those without a state change). A line is
 * valid when its effective characters do not start with `|` or `;`, contain
 * no two operators in a row, and, if they end in an operator, the raw line
 * ends in `&`.
 */
module Parser {
  import opened Strings

  /** The characters the scan skips: space, tab, CR, LF. */
  predicate IsBlank(c: char) {
    c == ' ' || c == '\t' || c == '\r' || c == '\n'
  }

  /** `strchr("|&;<>", c)` for a non-NUL `c`. */
  predicate IsOperator(c: char) {
    c == '|' || c == '&' || c == ';' || c == '<' || c == '>'
  }

  /** Position `k` of `s` leaves the scan's state as it was. */
  predicate Transparent(s: string, k: nat)
    requires k < |s|
  {
    IsBlank(s[k]) || (s[k] == '>' && k > 0 && s[k - 1] == '>')
  }

  /** The characters of `s` that the scan acts on, in order. */
  function Effective(s: string): (e: string)
    ensures |e| <= |s|
    ensures forall k :: 0 <= k < |e| ==> !IsBlank(e[k])
  {
    if |s| == 0 then []
    else Effective(s[..|s| - 1]) + (if Transparent(s, |s| - 1) then [] else [s[|s| - 1]])
  }

  predicate EndsInOperator(e: string) {
    |e| > 0 && IsOperator(e[|e| - 1])
  }

  /** No leading `|` or `;`, and no two operators in a row. */
  predicate ChainOk(e: string) {
    && (|e| == 0 || (e[0] != '|' && e[0] != ';'))
    && forall k :: 0 <= k < |e| - 1 ==> !(IsOperator(e[k]) && IsOperator(e[k + 1]))
  }

  /** The verdict of `is_valid_syntax`, stated over the effective characters. */
  predicate ValidSyntax(s: string) {
    var e := Effective(s);
    ChainOk(e) && (EndsInOperator(e) ==> s[|s| - 1] == '&')
  }

  lemma EffectiveStep(s: string, i: nat)
    requires i < |s|
    ensures Effective(s[..i + 1]) == Effective(s[..i]) + (if Transparent(s, i) then [] else [s[i]])
  {
    assert s[..i + 1][..i] == s[..i];
  }

  lemma {:induction false} EffectivePrefix(s: string, j: nat)
    requires j <= |s|
    ensures Effective(s[..j]) <= Effective(s)
    decreases |s| - j
  {
    if j < |s| {
      EffectivePrefix(s, j + 1);
      EffectiveStep(s, j);
    } else {
      assert s[..j] == s;
    }
  }

  lemma ChainOkExtend(e: string, c: char)
    requires ChainOk(e)
    requires !(EndsInOperator(e) && IsOperator(c))
    requires !(|e| == 0 && (c == '|' || c == ';'))
    ensures ChainOk(e + [c])
  {
  }

  lemma ChainBrokenInPrefix(s: string, j: nat)
    requires j <= |s| && !ChainOk(Effective(s[..j]))
    ensures !ValidSyntax(s)
  {
    EffectivePrefix(s, j);
  }

  /** An operator acted on right after another operator makes the line invalid. */
  lemma ConsecutiveOperatorsInvalid(s: string, i: nat)
    requires i < |s| && IsOperator(s[i]) && !Transparent(s, i)
    requires EndsInOperator(Effective(s[..i]))
    ensures !ValidSyntax(s)
  {
    EffectiveStep(s, i);
    var e := Effective(s[..i + 1]);
    assert e == Effective(s[..i]) + [s[i]];
    assert IsOperator(e[|e| - 2]) && IsOperator(e[|e| - 1]);
    ChainBrokenInPrefix(s, i + 1);
  }

  /**
   * A line whose first non-blank character (at `k`) is `|` or `;` is invalid.
   */
  lemma LeadingPipeOrSemicolonInvalid(s: string, k: nat)
    requires k < |s| && (s[k] == '|' || s[k] == ';')
    requires Effective(s[..k]) == []
    ensures !ValidSyntax(s)
  {
    EffectiveStep(s, k);
    ChainBrokenInPrefix(s, k + 1);
  }

  /**
   * `is_valid_syntax`: one pass over the line with the flags
   * `expect_command` and `last_was_special`.
   */
  method IsValidSyntax(input: string) returns (valid: bool)
    ensures valid == ValidSyntax(input)
  {
    var expectCommand, lastWasSpecial := true, false;
    ghost var e: string := [];
    var i := 0;
    while i < |input|
      invariant 0 <= i <= |input| && e == Effective(input[..i])
      invariant lastWasSpecial == EndsInOperator(e)
      invariant expectCommand == (|e| == 0 || lastWasSpecial)
      invariant ChainOk(e)
      invariant 0 < i && input[i - 1] == '>' ==> lastWasSpecial
    {
      EffectiveStep(input, i);
      var c := input[i];
      if IsBlank(c) {
        assert Effective(input[..i + 1]) == e;
        i := i + 1;
        continue;
      }
      if IsOperator(c) {
        if lastWasSpecial {
          if input[i - 1] == '>' && c == '>' {
            assert Effective(input[..i + 1]) == e;
            i := i + 1;
            continue;
          }
          ConsecutiveOperatorsInvalid(input, i);
          return false;
        }
        if expectCommand && (c == '|' || c == ';') {
          LeadingPipeOrSemicolonInvalid(input, i);
          return false;
        }
        ChainOkExtend(e, c);
        e := e + [c];
        assert Effective(input[..i + 1]) == e;
        lastWasSpecial, expectCommand := true, true;
        if c == '>' && i + 1 < |input| && input[i + 1] == '>' {
          EffectiveStep(input, i + 1);
          assert Effective(input[..i + 2]) == e;
          i := i + 1;
        }
      } else {
        ChainOkExtend(e, c);
        e := e + [c];
        assert Effective(input[..i + 1]) == e;
        lastWasSpecial, expectCommand := false, false;
      }
      i := i + 1;
    }
    assert input[..i] == input;
    valid := !(lastWasSpecial && input[|input| - 1] != '&');
  }

  // ---------------------------------------------------------------------------
  // Properties of the check
  // ---------------------------------------------------------------------------

  lemma {:induction false} EffectiveOfBlanks(s: string)
    requires forall k :: 0 <= k < |s| ==> IsBlank(s[k])
    ensures Effective(s) == []
  {
    if |s| > 0 {
      EffectiveOfBlanks(s[..|s| - 1]);
    }
  }

  /** An empty or all-blank line is valid. */
  lemma BlankLineValid(s: string)
    requires forall k :: 0 <= k < |s| ==> IsBlank(s[k])
    ensures ValidSyntax(s)
  {
    EffectiveOfBlanks(s);
  }

  /** Blanks are skipped: appending one leaves the effective characters alone. */
  lemma BlankSkipped(s: string, b: char)
    requires IsBlank(b)
    ensures Effective(s + [b]) == Effective(s)
  {
    assert (s + [b])[..|s|] == s;
  }

  /**
   * Apart from the effective characters, only the raw last character of the
   * line matters.
   */
  lemma ValidityDependsOnEffective(s: string, t: string)
    requires Effective(s) == Effective(t)
    requires (|s| > 0 && s[|s| - 1] == '&') == (|t| > 0 && t[|t| - 1] == '&')
    ensures ValidSyntax(s) == ValidSyntax(t)
  {
  }

  /** A line whose first non-blank character is `|` or `;` is invalid. */
  lemma LeadingOperatorAfterBlanksInvalid(s: string, k: nat)
    requires k < |s| && (s[k] == '|' || s[k] == ';')
    requires forall j :: 0 <= j < k ==> IsBlank(s[j])
    ensures !ValidSyntax(s)
  {
    EffectiveOfBlanks(s[..k]);
    LeadingPipeOrSemicolonInvalid(s, k);
  }

  /** The effective characters of a line whose raw last character is an operator end in an operator. */
  lemma {:induction false} RawOperatorLast(s: string)
    requires |s| > 0 && IsOperator(s[|s| - 1])
    ensures EndsInOperator(Effective(s))
    decreases |s|
  {
    var p := s[..|s| - 1];
    if Transparent(s, |s| - 1) {
      RawOperatorLast(p);
    }
  }

  lemma {:induction false} EffectiveIgnoresTrailingBlanks(a: string, w: string)
    requires forall k :: 0 <= k < |w| ==> IsBlank(w[k])
    ensures Effective(a + w) == Effective(a)
    decreases |w|
  {
    if |w| > 0 {
      var s := a + w;
      assert s[..|s| - 1] == a + w[..|w| - 1];
      EffectiveIgnoresTrailingBlanks(a, w[..|w| - 1]);
    } else {
      assert a + w == a;
    }
  }

  /**
   * Two operators separated only by blanks make the line invalid, unless they
   * are an adjacent `>>`.
   */
  lemma OperatorPairInvalid(a: string, o1: char, w: string, o2: char, b: string)
    requires IsOperator(o1) && IsOperator(o2)
    requires forall k :: 0 <= k < |w| ==> IsBlank(w[k])
    requires !(w == [] && o1 == '>' && o2 == '>')
    ensures !ValidSyntax(a + [o1] + w + [o2] + b)
  {
    var head := a + [o1];
    var s := head + w + [o2] + b;
    var i := |head| + |w|;
    assert s[..i] == head + w;
    assert s[i] == o2;
    assert s[i - 1] == if w == [] then o1 else w[|w| - 1];
    RawOperatorLast(head);
    EffectiveIgnoresTrailingBlanks(head, w);
    ConsecutiveOperatorsInvalid(s, i);
    assert s == a + [o1] + w + [o2] + b;
  }

  /** A line whose last non-blank character is an operator is invalid unless its last character is `&`. */
  lemma TrailingOperatorInvalid(a: string, o: char, w: string)
    requires IsOperator(o)
    requires forall k :: 0 <= k < |w| ==> IsBlank(w[k])
    requires (a + [o] + w)[|a + [o] + w| - 1] != '&'
    ensures !ValidSyntax(a + [o] + w)
  {
    RawOperatorLast(a + [o]);
    EffectiveIgnoresTrailingBlanks(a + [o], w);
  }

  /** Text without `|`, `&`, `<`, `>` or `;`. */
  predicate OperatorFree(t: string) {
    forall k :: 0 <= k < |t| ==> !IsOperator(t[k])
  }

  /** Dropping blanks keeps text operator-free. */
  lemma {:induction false} EffectiveOperatorFree(t: string)
    requires OperatorFree(t)
    ensures OperatorFree(Effective(t))
  {
    if |t| > 0 {
      EffectiveOperatorFree(t[..|t| - 1]);
    }
  }

  /** Operator-free text is valid on its own and with a final `&`. */
  lemma OperatorFreeValid(t: string)
    requires OperatorFree(t)
    ensures ValidSyntax(t) && ValidSyntax(t + "&")
  {
    EffectiveOperatorFree(t);
    var s := t + "&";
    EffectiveStep(s, |t|);
    assert s[..|t|] == t && s[..|t| + 1] == s;
  }

  /** `sleep 5 &` passes, but the same line with a trailing blank does not. */
  lemma TrailingBlankAfterAmpersand()
    ensures ValidSyntax("sleep 5 &")
    ensures !ValidSyntax("sleep 5 & ")
  {
    OperatorFreeValid("sleep 5 ");
    assert "sleep 5 " + "&" == "sleep 5 &";
    TrailingOperatorInvalid("sleep 5 ", '&', " ");
    assert "sleep 5 " + ['&'] + " " == "sleep 5 & ";
  }

  /** Adjacent `>>` passes; the same two characters split by a blank do not. */
  lemma AppendNeedsAdjacency()
    ensures ValidSyntax("a>>b")
    ensures !ValidSyntax("a> >b")
  {
    var s := "a>>b";
    EffectiveStep(s, 0);
    EffectiveStep(s, 1);
    EffectiveStep(s, 2);
    EffectiveStep(s, 3);
    assert s[..4] == s;
    assert Effective(s) == "a>b";
    OperatorPairInvalid("a", '>', " ", '>', "b");
    assert "a" + ['>'] + " " + ['>'] + "b" == "a> >b";
  }

  // ---------------------------------------------------------------------------
  // tokenize
  // ---------------------------------------------------------------------------

  /**
   * `tokenize`: the `strtok` tokens of the line on " \t\r\n", in a 64-slot
   * NULL-terminated array, with their count. The source writes past its
   * buffer for 64 or more tokens; that input is excluded here.
   */
  method Tokenize(input: string) returns (tokens: array<Option<string>>, argc: nat)
    requires |Fields(input, Blanks)| < 64
    ensures fresh(tokens) && tokens.Length == 64
    ensures argc == |Fields(input, Blanks)| && tokens[argc] == None
    ensures forall k :: 0 <= k < argc ==> tokens[k] == Some(Fields(input, Blanks)[k])
  {
    tokens := new Option<string>[64](_ => None);
    var count := 0;
    ghost var done: seq<string> := [];
    var rest := input;
    var token := Strtok(rest, Blanks);
    while token.Some?
      invariant count == |done| && Fields(input, Blanks) == done + Fields(rest, Blanks)
      invariant token == Strtok(rest, Blanks)
      invariant forall k :: 0 <= k < count ==> tokens[k] == Some(done[k])
      invariant forall k :: count <= k < 64 ==> tokens[k] == None
      decreases |rest|
    {
      FieldsStep(rest, Blanks);
      AppendAssoc(done, [token.value.0], Fields(token.value.1, Blanks));
      assert count < |Fields(input, Blanks)|;
      tokens[count] := Some(token.value.0);
      done := done + [token.value.0];
      count := count + 1;
      rest := token.value.1;
      token := Strtok(rest, Blanks);
    }
    FieldsStep(rest, Blanks);
    assert done == Fields(input, Blanks);
    tokens[count] := None;
    argc := count;
  }
}
