/**
 * The three form validators. Each checks its rules in a fixed order and
 * reports only the first one that fails ("first error wins"), as a
 * one-element list; a form that passes every rule yields None (null).
 */
module Validation {
  import opened Wrappers
  import opened Entities

  const MinPasswordLength := 5

  const UsernameRequired := FieldError("username", "Please enter a username")
  const PasswordTooShort := FieldError("password", "Password must be at least 5 characters long")
  const PasswordRequired := FieldError("password", "Please enter a password")
  const TitleRequired := FieldError("title", "Enter a title")
  const BodyRequired := FieldError("body", "Body cannot be left empty")

  /**
   * `s.length` in JavaScript: the number of UTF-16 code units, in which a
   * character outside the Basic Multilingual Plane counts twice.
   */
  function JsLength(s: string): (n: nat)
    ensures |s| <= n <= 2 * |s|
    ensures n == 0 <==> s == ""
  {
    if s == "" then 0
    else (if s[0] as int >= 0x1_0000 then 2 else 1) + JsLength(s[1..])
  }

  /** Registration form: a non-empty username, then a password of at least five UTF-16 units. */
  function ValidateRegister(username: string, password: string): (r: Option<seq<FieldError>>)
    ensures r.None? <==> username != "" && JsLength(password) >= MinPasswordLength
    ensures r.Some? ==> |r.value| == 1
    ensures username == "" ==> r == Some([UsernameRequired])
    ensures username != "" && JsLength(password) < MinPasswordLength ==> r == Some([PasswordTooShort])
  {
    if JsLength(username) <= 0 then Some([UsernameRequired])
    else if JsLength(password) < MinPasswordLength then Some([PasswordTooShort])
    else None
  }

  /** Login form: a non-empty username, then a non-empty password. */
  function ValidateLogin(username: string, password: string): (r: Option<seq<FieldError>>)
    ensures r.None? <==> username != "" && password != ""
    ensures r.Some? ==> |r.value| == 1
    ensures username == "" ==> r == Some([UsernameRequired])
    ensures username != "" && password == "" ==> r == Some([PasswordRequired])
  {
    if JsLength(username) == 0 then Some([UsernameRequired])
    else if JsLength(password) == 0 then Some([PasswordRequired])
    else None
  }

  /** Post form (create and update): a non-empty title, then a non-empty body. */
  function ValidatePost(title: string, body: string): (r: Option<seq<FieldError>>)
    ensures r.None? <==> title != "" && body != ""
    ensures r.Some? ==> |r.value| == 1
    ensures title == "" ==> r == Some([TitleRequired])
    ensures title != "" && body == "" ==> r == Some([BodyRequired])
  {
    if JsLength(title) == 0 then Some([TitleRequired])
    else if JsLength(body) == 0 then Some([BodyRequired])
    else None
  }

  // A reference definition: collect every violated rule, then keep the first.

  /** One rule of a form: whether it holds, and the error reported when it does not. */
  datatype Rule = Rule(holds: bool, error: FieldError)

  /** Every error of the violated rules, in rule order ("collect all"). */
  function Violations(rules: seq<Rule>): (r: seq<FieldError>)
    ensures |r| <= |rules|
    ensures r == [] <==> forall i :: 0 <= i < |rules| ==> rules[i].holds
    ensures forall e :: e in r ==> exists i :: 0 <= i < |rules| && !rules[i].holds && rules[i].error == e
    ensures forall i :: 0 <= i < |rules| && !rules[i].holds ==> rules[i].error in r
    ensures r != [] ==> exists i :: FirstViolated(rules, i) && r[0] == rules[i].error
  {
    if rules == [] then []
    else if rules[0].holds then Violations(rules[1..])
    else [rules[0].error] + Violations(rules[1..])
  }

  /** Rule `i` is the first rule that does not hold. */
  ghost predicate FirstViolated(rules: seq<Rule>, i: int) {
    0 <= i < |rules| && !rules[i].holds && forall j :: 0 <= j < i ==> rules[j].holds
  }

  /** First error wins: the first violation alone, or None when every rule holds. */
  function FirstErrorWins(rules: seq<Rule>): (r: Option<seq<FieldError>>)
    ensures r.None? <==> forall i :: 0 <= i < |rules| ==> rules[i].holds
    ensures r.Some? ==> exists i :: FirstViolated(rules, i) && r.value == [rules[i].error]
  {
    var all := Violations(rules);
    if all == [] then None else Some([all[0]])
  }

  function RegisterRules(username: string, password: string): seq<Rule> {
    [Rule(JsLength(username) > 0, UsernameRequired), Rule(JsLength(password) >= MinPasswordLength, PasswordTooShort)]
  }

  function LoginRules(username: string, password: string): seq<Rule> {
    [Rule(JsLength(username) > 0, UsernameRequired), Rule(JsLength(password) > 0, PasswordRequired)]
  }

  function PostRules(title: string, body: string): seq<Rule> {
    [Rule(JsLength(title) > 0, TitleRequired), Rule(JsLength(body) > 0, BodyRequired)]
  }

  /** Evaluating two rules in order: the first violated rule's error, alone. */
  lemma {:induction false} FirstOfTwo(a: Rule, b: Rule)
    ensures FirstErrorWins([a, b]) ==
      if !a.holds then Some([a.error]) else if !b.holds then Some([b.error]) else None
  {
    assert [a, b][1..] == [b];
    assert [b][1..] == [];
    assert Violations([b]) == if b.holds then [] else [b.error];
  }

  lemma RegisterIsFirstErrorWins(username: string, password: string)
    ensures ValidateRegister(username, password) == FirstErrorWins(RegisterRules(username, password))
  {
    FirstOfTwo(RegisterRules(username, password)[0], RegisterRules(username, password)[1]);
  }

  lemma LoginIsFirstErrorWins(username: string, password: string)
    ensures ValidateLogin(username, password) == FirstErrorWins(LoginRules(username, password))
  {
    FirstOfTwo(LoginRules(username, password)[0], LoginRules(username, password)[1]);
  }

  lemma PostIsFirstErrorWins(title: string, body: string)
    ensures ValidatePost(title, body) == FirstErrorWins(PostRules(title, body))
  {
    FirstOfTwo(PostRules(title, body)[0], PostRules(title, body)[1]);
  }

  /**
   * The boundary cases of the registration form. Lengths are UTF-16 units,
   * so three characters outside the Basic Multilingual Plane make a
   * password of length six, which passes.
   */
  lemma RegisterExamples()
    ensures ValidateRegister("", "abcd") == Some([UsernameRequired])
    ensures ValidateRegister("", "") == Some([UsernameRequired])
    ensures ValidateRegister("bob", "1234") == Some([PasswordTooShort])
    ensures ValidateRegister("bob", "12345") == None
    ensures ValidateRegister("bob", "\U{1F600}\U{1F600}\U{1F600}") == None
    ensures ValidateRegister("bob", "\U{1F600}\U{1F600}") == Some([PasswordTooShort])
    ensures ValidateLogin("bob", "1") == None
  {
    assert JsLength("1234") == 4 by {
      assert "1234"[1..] == "234" && "234"[1..] == "34" && "34"[1..] == "4" && "4"[1..] == "";
    }
    assert JsLength("12345") == 5 by {
      assert "12345"[1..] == "2345" && "2345"[1..] == "345" && "345"[1..] == "45";
      assert "45"[1..] == "5" && "5"[1..] == "";
    }
    var e := "\U{1F600}";
    assert JsLength(e) == 2 by { assert e[1..] == ""; }
    assert JsLength(e + e) == 4 by { assert (e + e)[1..] == e; }
    assert JsLength(e + e + e) == 6 by { assert (e + e + e)[1..] == e + e; }
    assert "\U{1F600}\U{1F600}" == e + e;
    assert "\U{1F600}\U{1F600}\U{1F600}" == e + e + e;
  }
}
