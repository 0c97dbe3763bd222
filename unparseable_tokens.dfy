/**
 * The configuration safety classifier (`UnparseableTokensTrait`): a config
 * file is parseable when none of its tokens is an array token whose kind is
 * one of nine kinds that could declare types, instantiate objects or run
 * code. The file read and `token_get_all` are not modelled: the input is the
 * token stream they would produce.
 */
module UnparseableTokens {

  /** Token kinds; the nine the classifier refuses are named, all others are `Other`. */
  datatype TokenKind =
    | Class | Clone | DoubleColon | Eval | Exit | Extends | Interface | New | Trait
    | Other(name: string)

  /** What `token_get_all` yields: a bare one-character token, or an array token. */
  datatype Token = Char(c: char) | Tok(kind: TokenKind, text: string)

  /** `$unparseableTokens`. */
  const UnparseableKinds: set<TokenKind> :=
    {Class, Clone, DoubleColon, Eval, Exit, Extends, Interface, New, Trait}

  /** The classifier refuses this token. */
  predicate Rejects(t: Token) {
    t.Tok? && t.kind in UnparseableKinds
  }

  /** The verdict of the scan, token by token from the front. */
  predicate Parseable(tokens: seq<Token>) {
    tokens == [] || (!Rejects(tokens[0]) && Parseable(tokens[1..]))
  }

  /** `isParseableContent`: the `foreach` with its early `return false`. */
  method IsParseableContent(tokens: seq<Token>) returns (ok: bool)
    ensures ok <==> forall i :: 0 <= i < |tokens| ==> !Rejects(tokens[i])
    ensures ok == Parseable(tokens)
  {
    ParseableIffNoneRejects(tokens);
    for i := 0 to |tokens|
      invariant forall j :: 0 <= j < i ==> !Rejects(tokens[j])
    {
      var token := tokens[i];
      if !token.Tok? {
        continue;
      }
      if token.kind in UnparseableKinds {
        return false;
      }
    }
    return true;
  }

  /** The verdict is "no token is refused". */
  lemma {:induction false} ParseableIffNoneRejects(tokens: seq<Token>)
    ensures Parseable(tokens) <==> forall i :: 0 <= i < |tokens| ==> !Rejects(tokens[i])
    decreases |tokens|
  {
    if tokens != [] {
      ParseableIffNoneRejects(tokens[1..]);
      assert forall i :: 1 <= i < |tokens| ==> tokens[i] == tokens[1..][i - 1];
    }
  }

  /** A stream is parseable exactly when both of its halves are. */
  lemma {:induction false} ParseableConcat(a: seq<Token>, b: seq<Token>)
    ensures Parseable(a + b) <==> Parseable(a) && Parseable(b)
    decreases |a|
  {
    if a != [] {
      ParseableConcat(a[1..], b);
      assert (a + b)[1..] == a[1..] + b;
    } else {
      assert a + b == b;
    }
  }

  /** Adding tokens never turns a rejection into an acceptance. */
  lemma RejectionIsMonotone(a: seq<Token>, b: seq<Token>)
    requires !Parseable(a)
    ensures !Parseable(a + b) && !Parseable(b + a)
  {
    ParseableConcat(a, b);
    ParseableConcat(b, a);
  }

  /** Single-character tokens never decide the verdict. */
  lemma CharsNeverReject(a: seq<Token>, c: char, b: seq<Token>)
    ensures Parseable(a + [Char(c)] + b) == Parseable(a + b)
  {
    ParseableConcat(a + [Char(c)], b);
    ParseableConcat(a, [Char(c)]);
    ParseableConcat(a, b);
  }

  /** One refused token anywhere refuses the whole stream. */
  lemma RefusedTokenAnywhere(a: seq<Token>, t: Token, b: seq<Token>)
    requires Rejects(t)
    ensures !Parseable(a + [t] + b)
  {
    ParseableConcat(a + [t], b);
    ParseableConcat(a, [t]);
  }

  /** The verdict does not depend on the order of the tokens. */
  lemma ParseableIgnoresOrder(a: seq<Token>, b: seq<Token>)
    requires multiset(a) == multiset(b)
    ensures Parseable(a) == Parseable(b)
  {
    ParseableIffNoneRejects(a);
    ParseableIffNoneRejects(b);
    forall i | 0 <= i < |b| && Rejects(b[i]) ensures !Parseable(a) {
      assert b[i] in multiset(a);
    }
    forall i | 0 <= i < |a| && Rejects(a[i]) ensures !Parseable(b) {
      assert a[i] in multiset(b);
    }
  }

  /**
   * `Foo::class` is refused: there is no look-ahead exemption for a `::`
   * followed by the `class` pseudo-constant (and `class` is itself refused).
   */
  lemma ClassNameReferenceRefused(before: seq<Token>, name: string, after: seq<Token>)
    ensures !Parseable(before + [Tok(Other("T_STRING"), name), Tok(DoubleColon, "::"), Tok(Class, "class")] + after)
  {
    var s := before + [Tok(Other("T_STRING"), name)];
    assert before + [Tok(Other("T_STRING"), name), Tok(DoubleColon, "::"), Tok(Class, "class")] + after
        == s + [Tok(DoubleColon, "::")] + ([Tok(Class, "class")] + after);
    RefusedTokenAnywhere(s, Tok(DoubleColon, "::"), [Tok(Class, "class")] + after);
  }
}
