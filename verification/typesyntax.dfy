/**
  The type-reference grammar of graphql-js's `parseType` and the printer behind
  `GraphQLType.toString()`:

    Type := NamedType | "[" Type "]" | NamedType "!" | "[" Type "]" "!"

  Ignored tokens (white space, line terminators, commas, the byte order mark)
  may separate the tokens. The exact wording of graphql-js's syntax errors is
  not modelled; a failure carries a message of the same shape.
 */
module TypeSyntax {
  import opened Wrappers
  import opened Ast

  predicate IsNameStart(c: char) {
    c == '_' || ('A' <= c <= 'Z') || ('a' <= c <= 'z')
  }

  predicate IsNameContinue(c: char) {
    IsNameStart(c) || ('0' <= c <= '9')
  }

  predicate IsIgnored(c: char) {
    c == ' ' || c == '\t' || c == '\n' || c == '\r' || c == ',' || c == '﻿'
  }

  /** A GraphQL Name: `/[_A-Za-z][_0-9A-Za-z]*` (section 2.1.9 of the GraphQL specification). */
  predicate IsName(s: string) {
    |s| > 0 && IsNameStart(s[0]) && forall i :: 0 <= i < |s| ==> IsNameContinue(s[i])
  }

  /** The type references the grammar can produce: proper names and no `!!`. */
  predicate WellFormed(t: TypeRef) {
    match t
    case Named(n) => IsName(n)
    case ListOf(item) => WellFormed(item)
    case NonNull(inner) => !inner.NonNull? && WellFormed(inner)
  }

  /** `GraphQLType.toString()`: `[ID!]!` and so on. */
  function Print(t: TypeRef): string {
    match t
    case Named(n) => n
    case ListOf(item) => "[" + Print(item) + "]"
    case NonNull(inner) => Print(inner) + "!"
  }

  function SkipIgnored(s: string): (r: string)
    ensures |r| <= |s|
    ensures r == s[|s| - |r|..]
    ensures r == [] || !IsIgnored(r[0])
  {
    if |s| > 0 && IsIgnored(s[0]) then SkipIgnored(s[1..]) else s
  }

  /** Splits off the longest prefix of name characters. */
  function ScanName(s: string): (r: (string, string))
    ensures r.0 + r.1 == s
    ensures forall i :: 0 <= i < |r.0| ==> IsNameContinue(r.0[i])
    ensures r.1 == [] || !IsNameContinue(r.1[0])
  {
    if |s| > 0 && IsNameContinue(s[0]) then
      var (n, rest) := ScanName(s[1..]);
      ([s[0]] + n, rest)
    else ([], s)
  }

  /** A named type or a list type, without a trailing `!`; returns the unread input. */
  function ParseUnwrapped(s: string): (r: Result<(TypeRef, string), string>)
    ensures r.Success? ==> |r.value.1| < |s| && !r.value.0.NonNull? && WellFormed(r.value.0)
    decreases |s|, 0
  {
    var s1 := SkipIgnored(s);
    if |s1| == 0 then Failure("Syntax Error: Expected Name, found <EOF>.")
    else if s1[0] == '[' then
      match ParseTypeReference(s1[1..])
      case Failure(e) => Failure(e)
      case Success((item, s2)) =>
        var s3 := SkipIgnored(s2);
        if |s3| > 0 && s3[0] == ']' then Success((ListOf(item), s3[1..]))
        else Failure("Syntax Error: Expected \"]\".")
    else if IsNameStart(s1[0]) then
      var (n, rest) := ScanName(s1);
      Success((Named(n), rest))
    else Failure("Syntax Error: Expected Name.")
  }

  /** graphql-js's `parseTypeReference`: an unwrapped type and an optional `!`. */
  function ParseTypeReference(s: string): (r: Result<(TypeRef, string), string>)
    ensures r.Success? ==> |r.value.1| < |s| && WellFormed(r.value.0)
    decreases |s|, 1
  {
    match ParseUnwrapped(s)
    case Failure(e) => Failure(e)
    case Success((t, rest)) =>
      var rest1 := SkipIgnored(rest);
      if |rest1| > 0 && rest1[0] == '!' then Success((NonNull(t), rest1[1..]))
      else Success((t, rest))
  }

  /** graphql-js's `parseType`: one type reference and then the end of the input. */
  function ParseType(s: string): (r: Result<TypeRef, string>)
    ensures r.Success? ==> WellFormed(r.value)
  {
    match ParseTypeReference(s)
    case Failure(e) => Failure(e)
    case Success((t, rest)) =>
      if SkipIgnored(rest) == [] then Success(t) else Failure("Syntax Error: Expected <EOF>.")
  }

  /** What may follow a printed type without being read as part of it. */
  predicate Delimits(rest: string) {
    rest == [] || (!IsNameContinue(rest[0]) && !IsIgnored(rest[0]))
  }

  lemma {:induction false} ScanNameOf(n: string, rest: string)
    requires forall i :: 0 <= i < |n| ==> IsNameContinue(n[i])
    requires rest == [] || !IsNameContinue(rest[0])
    ensures ScanName(n + rest) == (n, rest)
  {
    if |n| > 0 {
      assert (n + rest)[1..] == n[1..] + rest;
      ScanNameOf(n[1..], rest);
      assert [n[0]] + n[1..] == n;
    } else {
      assert n + rest == rest;
    }
  }

  lemma SkipNothing(s: string)
    requires s == [] || !IsIgnored(s[0])
    ensures SkipIgnored(s) == s
  {
  }

  lemma {:induction false} ParseUnwrappedPrint(t: TypeRef, rest: string)
    requires WellFormed(t) && !t.NonNull? && Delimits(rest)
    ensures ParseUnwrapped(Print(t) + rest) == Success((t, rest))
    decreases t, 0
  {
    var s := Print(t) + rest;
    match t
    case Named(n) =>
      assert s[0] == n[0] && IsNameStart(s[0]);
      SkipNothing(s);
      ScanNameOf(n, rest);
    case ListOf(item) =>
      assert s[0] == '[';
      SkipNothing(s);
      assert s[1..] == Print(item) + ("]" + rest);
      ParseTypeReferencePrint(item, "]" + rest);
      SkipNothing("]" + rest);
      assert ("]" + rest)[1..] == rest;
  }

  lemma {:induction false} ParseTypeReferencePrint(t: TypeRef, rest: string)
    requires WellFormed(t) && Delimits(rest) && (rest == [] || rest[0] != '!')
    ensures ParseTypeReference(Print(t) + rest) == Success((t, rest))
    decreases t, 1
  {
    var s := Print(t) + rest;
    if t.NonNull? {
      var inner := t.inner;
      assert s == Print(inner) + ("!" + rest);
      ParseUnwrappedPrint(inner, "!" + rest);
      assert ParseUnwrapped(s) == Success((inner, "!" + rest));
      SkipNothing("!" + rest);
      assert ("!" + rest)[1..] == rest;
    } else {
      ParseUnwrappedPrint(t, rest);
      assert ParseUnwrapped(s) == Success((t, rest));
      SkipNothing(rest);
    }
  }

  /** Printing a well-formed type and parsing the text gives the type back. */
  lemma ParsePrintRoundTrip(t: TypeRef)
    requires WellFormed(t)
    ensures ParseType(Print(t)) == Success(t)
  {
    ParseTypeReferencePrint(t, []);
    assert Print(t) + [] == Print(t);
  }

  /** Every type `parseType` accepts prints to text that parses back to the same type. */
  lemma PrintParseRoundTrip(s: string)
    requires ParseType(s).Success?
    ensures ParseType(Print(ParseType(s).value)) == ParseType(s)
  {
    ParsePrintRoundTrip(ParseType(s).value);
  }
}
