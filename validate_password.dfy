/** The validatePassword middleware: a zod schema that trims the password,
    bounds its length and asks for four kinds of character, reporting every
    rule the trimmed password breaks; on success the request body is
    replaced by the parsed one, with the password trimmed. */
module ValidatePassword {
  import opened Common
  import opened Text

  /** The issues the schema can raise, in the order of the zod chain. */
  datatype Issue =
    | NotAString   // the base `z.string()` type check: missing or not a string
    | TooLong      // "Password is too long"
    | TooShort     // "Password must be at least 8 characters long"
    | NoLowercase  // "… at least one lowercase letter"
    | NoUppercase  // "… at least one uppercase letter"
    | NoDigit      // "… at least one number"
    | NoSpecial    // "… at least one special character"

  /** The key the schema reads and rewrites. */
  const PasswordKey := "password"

  predicate HasLower(s: string) { exists i :: 0 <= i < |s| && IsAsciiLower(s[i]) }
  predicate HasUpper(s: string) { exists i :: 0 <= i < |s| && IsAsciiUpper(s[i]) }
  predicate HasDigit(s: string) { exists i :: 0 <= i < |s| && IsAsciiDigit(s[i]) }

  /** `[\W_]`: anything that is not an ASCII letter or digit (`\W` is
      everything outside `[A-Za-z0-9_]`, and `_` is added back). */
  predicate IsSpecial(c: char)
  {
    !IsAsciiLower(c) && !IsAsciiUpper(c) && !IsAsciiDigit(c)
  }

  predicate HasSpecial(s: string) { exists i :: 0 <= i < |s| && IsSpecial(s[i]) }

  /** The password rule, on the trimmed password. */
  predicate Strong(p: string)
  {
    8 <= |p| <= 128 && HasLower(p) && HasUpper(p) && HasDigit(p) && HasSpecial(p)
  }

  /** The position of each issue in the chain. */
  function Rank(e: Issue): nat
  {
    match e
    case NotAString => 0
    case TooLong => 1
    case TooShort => 2
    case NoLowercase => 3
    case NoUppercase => 4
    case NoDigit => 5
    case NoSpecial => 6
  }

  /** Issues, each at most once, in the order of the chain. */
  predicate InChainOrder(issues: seq<Issue>)
  {
    forall i, j :: 0 <= i < j < |issues| ==> Rank(issues[i]) < Rank(issues[j])
  }

  /** A check that adds its issue when it fails. */
  function Check(issues: seq<Issue>, ok: bool, e: Issue): (r: seq<Issue>)
    requires InChainOrder(issues) && forall d :: d in issues ==> Rank(d) < Rank(e)
    ensures InChainOrder(r) && forall d :: d in r ==> Rank(d) <= Rank(e)
    ensures forall d :: d in r <==> d in issues || (d == e && !ok)
  {
    if ok then issues
    else
      var r := issues + [e];
      assert forall i :: 0 <= i < |issues| ==> r[i] == issues[i] && r[i] in issues;
      r
  }

  /** The two length checks after `.trim()`. */
  function LengthIssues(t: string): (r: seq<Issue>)
    ensures InChainOrder(r) && forall d :: d in r ==> Rank(d) <= Rank(TooShort)
    ensures TooLong in r <==> |t| > 128
    ensures TooShort in r <==> |t| < 8
    ensures r == [] <==> 8 <= |t| <= 128
  {
    var r := Check(Check([], |t| <= 128, TooLong), |t| >= 8, TooShort);
    assert r != [] ==> r[0] in r;
    r
  }

  /** The four character-class refinements, which zod runs after the
      length checks whatever their outcome. */
  function ClassIssues(issues: seq<Issue>, t: string): (r: seq<Issue>)
    requires InChainOrder(issues) && forall d :: d in issues ==> Rank(d) <= Rank(TooShort)
    ensures InChainOrder(r)
    ensures forall d :: d in issues ==> d in r
    ensures NoSpecial in r <==> !HasSpecial(t)
    ensures r == [] <==> issues == [] && HasLower(t) && HasUpper(t) && HasDigit(t) && HasSpecial(t)
    ensures forall d :: d in r ==> d in issues || Rank(d) > Rank(TooShort)
  {
    assert Rank(TooShort) < Rank(NoLowercase);
    var r3 := Check(issues, HasLower(t), NoLowercase);
    var r4 := Check(r3, HasUpper(t), NoUppercase);
    var r5 := Check(r4, HasDigit(t), NoDigit);
    var r := Check(r5, HasSpecial(t), NoSpecial);
    assert r != [] ==> r[0] in r;
    r
  }

  /** Every check after `.trim()`: zod runs all of them on the trimmed
      string and keeps every issue. */
  function TrimmedIssues(t: string): (r: seq<Issue>)
    ensures InChainOrder(r) && NotAString !in r
    ensures r == [] <==> Strong(t)
    ensures TooLong in r <==> |t| > 128
    ensures TooShort in r <==> |t| < 8
    ensures NoSpecial in r <==> !HasSpecial(t)
  {
    ClassIssues(LengthIssues(t), t)
  }

  /** validatePassword on a request body: a 400 VALIDATION_ERROR with the
      issues, or the parsed body, whose password is the trimmed one and
      whose other fields pass through. */
  function ValidateBody(body: map<string, JsValue>): (r: Result<map<string, JsValue>, seq<Issue>>)
    ensures r.Success? <==> Field(body, PasswordKey).Str? && Strong(Trim(Field(body, PasswordKey).s))
    ensures r.Success? ==>
      && r.value.Keys == body.Keys
      && r.value[PasswordKey] == Str(Trim(body[PasswordKey].s))
      && forall k :: k in body && k != PasswordKey ==> r.value[k] == body[k]
    ensures r.Failure? ==> r.error != [] && InChainOrder(r.error)
    ensures r.Failure? ==> (r.error == [NotAString] <==> !Field(body, PasswordKey).Str?)
  {
    match Field(body, PasswordKey)
    case Str(p) =>
      var issues := TrimmedIssues(Trim(p));
      if issues == [] then Success(body[PasswordKey := Str(Trim(p))]) else Failure(issues)
    case _ => Failure([NotAString])
  }

  /** What is stored is a strong password with no white space at either end. */
  lemma StoredPasswordIsStrong(body: map<string, JsValue>)
    requires ValidateBody(body).Success?
    ensures var p := ValidateBody(body).value[PasswordKey].s;
      Strong(p) && !IsJsSpace(p[0]) && !IsJsSpace(p[|p| - 1])
  {
    TrimIsCut(body[PasswordKey].s);
  }

  /** The parsed body passes the middleware again, unchanged. */
  lemma Revalidate(body: map<string, JsValue>)
    requires ValidateBody(body).Success?
    ensures ValidateBody(ValidateBody(body).value) == ValidateBody(body)
  {
    var p := body[PasswordKey].s;
    var v := ValidateBody(body).value;
    TrimIdempotent(p);
    assert v[PasswordKey := Str(Trim(Trim(p)))] == v;
  }

  /** White space typed around a password changes nothing: the same
      issues, or the same parsed body. */
  lemma PaddingIgnored(body: map<string, JsValue>, pre: string, p: string, post: string)
    requires Blank(pre) && Blank(post)
    ensures ValidateBody(body[PasswordKey := Str(pre + p + post)]) == ValidateBody(body[PasswordKey := Str(p)])
  {
    TrimPadded(pre, p, post);
    assert body[PasswordKey := Str(pre + p + post)][PasswordKey := Str(Trim(p))]
      == body[PasswordKey := Str(p)][PasswordKey := Str(Trim(p))];
  }
}
