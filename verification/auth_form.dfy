/**
  The password-strength check of the sign-up and log-in form, and the
  guard that keeps the form from sending a request while it reports
  errors.
 */
module AuthForm {
  import opened Chars
  import opened Seqs

  const TooShort: string := "Password must be at least 8 characters."
  const NoUpper: string := "Must include an uppercase letter."
  const NoLower: string := "Must include a lowercase letter."
  const NoNumber: string := "Must include a number."
  const NoSpecial: string := "Must include a special character."
  const Mismatch: string := "Passwords do not match."

  /** The strength messages, in the order the rules are checked. */
  const StrengthMessages: seq<string> := [TooShort, NoUpper, NoLower, NoNumber, NoSpecial]

  /** The characters of the class `[!@#$%^&*(),.?":{}|<>]`. */
  const SpecialChars: string := "!@#$%^&*(),.?\":{}|<>"

  predicate IsSpecial(c: char)
  {
    c in SpecialChars
  }

  predicate HasUpper(pwd: string)
  {
    exists i :: 0 <= i < |pwd| && IsUpper(pwd[i])
  }

  predicate HasLower(pwd: string)
  {
    exists i :: 0 <= i < |pwd| && IsLower(pwd[i])
  }

  predicate HasDigit(pwd: string)
  {
    exists i :: 0 <= i < |pwd| && IsDigit(pwd[i])
  }

  predicate HasSpecial(pwd: string)
  {
    exists i :: 0 <= i < |pwd| && IsSpecial(pwd[i])
  }

  /** A password every rule accepts. */
  predicate Strong(pwd: string)
  {
    |pwd| >= 8 && HasUpper(pwd) && HasLower(pwd) && HasDigit(pwd) && HasSpecial(pwd)
  }

  /** The messages whose rule `pwd` breaks, each message naming one rule. */
  function Broken(pwd: string): string -> bool
  {
    (m: string) =>
      || (m == TooShort && |pwd| < 8)
      || (m == NoUpper && !HasUpper(pwd))
      || (m == NoLower && !HasLower(pwd))
      || (m == NoNumber && !HasDigit(pwd))
      || (m == NoSpecial && !HasSpecial(pwd))
  }

  /**
    The list of strength errors of `pwd`: one message per broken rule, in
    rule order, and none at all exactly for a strong password.
   */
  function ValidatePassword(pwd: string): (errs: seq<string>)
    ensures errs == Filter(StrengthMessages, Broken(pwd))
    ensures errs == [] <==> Strong(pwd)
    ensures TooShort in errs <==> |pwd| < 8
    ensures |errs| <= 5
  {
    var errs :=
      (if |pwd| < 8 then [TooShort] else [])
      + ((if !HasUpper(pwd) then [NoUpper] else [])
      + ((if !HasLower(pwd) then [NoLower] else [])
      + ((if !HasDigit(pwd) then [NoNumber] else [])
      + (if !HasSpecial(pwd) then [NoSpecial] else []))));
    assert errs == Filter(StrengthMessages, Broken(pwd)) by {
      FollowsRules(pwd);
    }
    errs
  }

  /** Filtering the message table by `Broken` selects each message exactly when its own rule is broken. */
  lemma FollowsRules(pwd: string)
    ensures Filter(StrengthMessages, Broken(pwd)) ==
              (if |pwd| < 8 then [TooShort] else [])
              + ((if !HasUpper(pwd) then [NoUpper] else [])
              + ((if !HasLower(pwd) then [NoLower] else [])
              + ((if !HasDigit(pwd) then [NoNumber] else [])
              + (if !HasSpecial(pwd) then [NoSpecial] else []))))
  {
    var p := Broken(pwd);
    MessagesDistinct();
    assert p(TooShort) == (|pwd| < 8);
    assert p(NoUpper) == !HasUpper(pwd);
    assert p(NoLower) == !HasLower(pwd);
    assert p(NoNumber) == !HasDigit(pwd);
    assert p(NoSpecial) == !HasSpecial(pwd);
    FilterFive(TooShort, NoUpper, NoLower, NoNumber, NoSpecial, p);
  }

  /** A filter over five elements, written out. */
  lemma FilterFive<T(!new)>(x1: T, x2: T, x3: T, x4: T, x5: T, p: T -> bool)
    ensures Filter([x1, x2, x3, x4, x5], p) ==
              (if p(x1) then [x1] else []) + ((if p(x2) then [x2] else []) + ((if p(x3) then [x3] else [])
              + ((if p(x4) then [x4] else []) + (if p(x5) then [x5] else []))))
  {
    var t5: seq<T> := [x5];
    FilterCons(x5, [], p);
    assert [x5] + [] == t5;
    var t4 := [x4] + t5;
    FilterCons(x4, t5, p);
    var t3 := [x3] + t4;
    FilterCons(x3, t4, p);
    var t2 := [x2] + t3;
    FilterCons(x2, t3, p);
    var t1 := [x1] + t2;
    FilterCons(x1, t2, p);
    assert t1 == [x1, x2, x3, x4, x5];
  }

  /** The five strength messages are pairwise different. */
  lemma MessagesDistinct()
    ensures TooShort != NoUpper && TooShort != NoLower && TooShort != NoNumber && TooShort != NoSpecial
    ensures NoUpper != NoLower && NoUpper != NoNumber && NoUpper != NoSpecial
    ensures NoLower != NoNumber && NoLower != NoSpecial
    ensures NoNumber != NoSpecial
  {
    assert |TooShort| == 39 && |NoUpper| == 33 && |NoLower| == 32 && |NoNumber| == 22 && |NoSpecial| == 33;
    assert NoUpper[14] != NoSpecial[14];
  }

  /**
    Typing more characters never brings a new message: every rule is a
    lower bound on the length or asks for some character to occur.
   */
  lemma ExtendingNeverAddsErrors(pwd: string, more: string)
    ensures forall m :: m in ValidatePassword(pwd + more) ==> m in ValidatePassword(pwd)
  {
    var ext := pwd + more;
    assert forall i :: 0 <= i < |pwd| ==> ext[i] == pwd[i];
    assert HasUpper(pwd) ==> HasUpper(ext);
    assert HasLower(pwd) ==> HasLower(ext);
    assert HasDigit(pwd) ==> HasDigit(ext);
    assert HasSpecial(pwd) ==> HasSpecial(ext);
  }

  /** Which form is shown. */
  datatype Form = Form(mode: string, username: string, email: string, password: string, confirm: string)

  /** What submitting the form does before any answer comes back. */
  datatype Submission =
    | ShowErrors(errors: seq<string>)
    | PostRegister(username: string, email: string, password: string)
    | PostLogin(email: string, password: string)
    | NoRequest

  /**
    The submit handler up to the request it sends. Sign-up adds the
    mismatch message after the strength messages; either mode stops with
    the errors as soon as there is one, and sends a request only when
    there is none.
   */
  function HandleSubmit(f: Form): (s: Submission)
    ensures f.mode == "signup" ==>
              (s.ShowErrors? <==> !Strong(f.password) || f.password != f.confirm)
    ensures f.mode == "signup" && s.ShowErrors? ==>
              s.errors == ValidatePassword(f.password) + (if f.password != f.confirm then [Mismatch] else [])
    ensures f.mode == "login" ==>
              (s.ShowErrors? <==> !Strong(f.password))
    ensures f.mode == "login" && s.ShowErrors? ==> s.errors == ValidatePassword(f.password)
    ensures s.ShowErrors? ==> |s.errors| > 0
    ensures s.PostRegister? <==> f.mode == "signup" && Strong(f.password) && f.password == f.confirm
    ensures s.PostRegister? ==> s == PostRegister(f.username, f.email, f.password)
    ensures s.PostLogin? <==> f.mode == "login" && Strong(f.password)
    ensures s.PostLogin? ==> s == PostLogin(f.email, f.password)
    ensures s == NoRequest <==> f.mode != "signup" && f.mode != "login"
  {
    if f.mode == "signup" then
      var errs := ValidatePassword(f.password) + (if f.password != f.confirm then [Mismatch] else []);
      if |errs| > 0 then ShowErrors(errs) else PostRegister(f.username, f.email, f.password)
    else if f.mode == "login" then
      var errs := ValidatePassword(f.password);
      if |errs| > 0 then ShowErrors(errs) else PostLogin(f.email, f.password)
    else
      NoRequest
  }

  /** On sign-up the mismatch message is reported last, once, after all the strength messages. */
  lemma MismatchReportedLast(f: Form)
    requires f.mode == "signup" && f.password != f.confirm
    ensures var s := HandleSubmit(f);
            && s.ShowErrors?
            && s.errors[|s.errors| - 1] == Mismatch
            && Mismatch !in s.errors[..|s.errors| - 1]
  {
    var s := HandleSubmit(f);
    var strength := ValidatePassword(f.password);
    assert s.errors[..|s.errors| - 1] == strength;
    assert Mismatch !in StrengthMessages;
  }
}
