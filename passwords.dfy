/** The password policy `validatePassword` (written twice, identically, in server.js and
    script.js) and the server's change-password handler that applies it. */
module Passwords {
  import opened Js

  const MinLength: nat := 8
  const MaxLength: nat := 32
  /** The character class `[!@#$%^&*(),.?":{}|<>]`. */
  const SpecialChars: string := "!@#$%^&*(),.?\":{}|<>"

  const LengthMessage: string := "Password must be between 8 and 32 characters long."
  const UpperMessage: string := "Password must contain at least one uppercase letter."
  const LowerMessage: string := "Password must contain at least one lowercase letter."
  const DigitMessage: string := "Password must contain at least one number."
  const SpecialMessage: string := "Password must contain at least one special character (!@#$%^&*(),.?\":{}|<>)."

  datatype Check = Valid | Invalid(message: string)

  predicate HasUpper(p: string) { exists i :: 0 <= i < |p| && IsUpper(p[i]) }
  predicate HasLower(p: string) { exists i :: 0 <= i < |p| && IsLower(p[i]) }
  predicate HasDigit(p: string) { exists i :: 0 <= i < |p| && IsDigit(p[i]) }
  predicate HasSpecial(p: string) { exists i :: 0 <= i < |p| && p[i] in SpecialChars }

  /** The policy's rules, in the order the function tests them. */
  datatype Rule = Length | Upper | Lower | Digit | Special

  const Rules: seq<Rule> := [Length, Upper, Lower, Digit, Special]

  predicate Holds(r: Rule, p: string) {
    match r
    case Length => MinLength <= |p| <= MaxLength
    case Upper => HasUpper(p)
    case Lower => HasLower(p)
    case Digit => HasDigit(p)
    case Special => HasSpecial(p)
  }

  function Message(r: Rule): string {
    match r
    case Length => LengthMessage
    case Upper => UpperMessage
    case Lower => LowerMessage
    case Digit => DigitMessage
    case Special => SpecialMessage
  }

  /** The first rule of `rules` that the password breaks, if any. */
  function FirstBroken(rules: seq<Rule>, p: string): (r: Option<nat>)
    ensures r.None? <==> forall k :: 0 <= k < |rules| ==> Holds(rules[k], p)
    ensures r.Some? ==> r.value < |rules| && !Holds(rules[r.value], p)
                        && forall j :: 0 <= j < r.value ==> Holds(rules[j], p)
  {
    if rules == [] then None
    else if !Holds(rules[0], p) then Some(0)
    else match FirstBroken(rules[1..], p)
         case None => None
         case Some(k) => Some(k + 1)
  }

  /** Valid exactly when every rule holds; otherwise the message is that of the first rule,
      in the order length, uppercase, lowercase, digit, special, that fails. */
  function ValidatePassword(p: string): (r: Check)
    ensures r == match FirstBroken(Rules, p)
                 case None => Valid
                 case Some(k) => Invalid(Message(Rules[k]))
  {
    FirstBrokenRules(p);
    if |p| < MinLength || |p| > MaxLength then
      Invalid(LengthMessage)
    else if !HasUpper(p) then
      Invalid(UpperMessage)
    else if !HasLower(p) then
      Invalid(LowerMessage)
    else if !HasDigit(p) then
      Invalid(DigitMessage)
    else if !HasSpecial(p) then
      Invalid(SpecialMessage)
    else
      Valid
  }

  /** FirstBroken on the policy, unfolded rule by rule. */
  lemma FirstBrokenRules(p: string)
    ensures FirstBroken(Rules, p) ==
              if !Holds(Length, p) then Some(0)
              else if !Holds(Upper, p) then Some(1)
              else if !Holds(Lower, p) then Some(2)
              else if !Holds(Digit, p) then Some(3)
              else if !Holds(Special, p) then Some(4)
              else None
  {
    var r := FirstBroken(Rules, p);
    assert Rules[0] == Length && Rules[1] == Upper && Rules[2] == Lower && Rules[3] == Digit && Rules[4] == Special;
    assert r.Some? ==> r.value < 5;
  }

  /** Valid exactly when the password meets all five rules. */
  lemma ValidIffPolicy(p: string)
    ensures ValidatePassword(p).Valid? <==>
              MinLength <= |p| <= MaxLength && HasUpper(p) && HasLower(p) && HasDigit(p) && HasSpecial(p)
  {
    assert Holds(Rules[0], p) == (MinLength <= |p| <= MaxLength);
    assert Holds(Rules[4], p) == HasSpecial(p);
  }

  /** The five messages are distinct, so a message names the rule that failed, and all rules
      before it hold. */
  lemma MessageNamesRule(p: string, k: nat)
    requires k < |Rules| && ValidatePassword(p) == Invalid(Message(Rules[k]))
    ensures !Holds(Rules[k], p)
    ensures forall j :: 0 <= j < k ==> Holds(Rules[j], p)
  {
    var i := FirstBroken(Rules, p).value;
    MessagesDistinct(Rules[i], Rules[k]);
    RulesDistinct(i, k);
  }

  /** Different rules have different messages. */
  lemma MessagesDistinct(a: Rule, b: Rule)
    ensures Message(a) == Message(b) ==> a == b
  {
    if Message(a) == Message(b) {
      assert Message(a)[14] == Message(b)[14] && Message(a)[35] == Message(b)[35];
    }
  }

  /** The policy lists each rule once. */
  lemma RulesDistinct(i: nat, k: nat)
    requires i < |Rules| && k < |Rules| && Rules[i] == Rules[k]
    ensures i == k
  {
  }

  /** A password of the right length without an uppercase letter fails on that rule, whatever
      else it holds. */
  lemma NoUpperRejected(p: string)
    requires MinLength <= |p| <= MaxLength && !HasUpper(p)
    ensures ValidatePassword(p) == Invalid(UpperMessage)
  {
  }

  /** A password made of letters and digits alone is never accepted; when it meets the first
      four rules, the special-character message is the one given. */
  lemma AlphanumericRejected(p: string)
    requires forall i :: 0 <= i < |p| ==> IsUpper(p[i]) || IsLower(p[i]) || IsDigit(p[i])
    ensures ValidatePassword(p).Invalid?
    ensures MinLength <= |p| <= MaxLength && HasUpper(p) && HasLower(p) && HasDigit(p) ==>
              ValidatePassword(p) == Invalid(SpecialMessage)
  {
    assert !HasSpecial(p) by {
      forall i | 0 <= i < |p| ensures p[i] !in SpecialChars {
        AlphanumericNotSpecial(p[i]);
      }
    }
  }

  /** Letters and digits are not special characters. */
  lemma AlphanumericNotSpecial(c: char)
    requires IsUpper(c) || IsLower(c) || IsDigit(c)
    ensures c !in SpecialChars
  {
  }

  // ------------------------------------------------------------ POST /change-password

  /** The columns of a Users row this handler reads. */
  datatype Account = Account(userId: int, password: string, oauthProvider: Option<string>)

  datatype Reply = Reply(status: int, success: bool, message: string)

  /** The reply and, when the password is changed, the new password written to the row. */
  datatype ChangeResult = ChangeResult(reply: Reply, stored: Option<string>)

  predicate Linked(a: Account) { a.oauthProvider.Some? && a.oauthProvider.value != "" }

  /** The handler, with the user lookup by email given as `lookup` (None when no row matched)
      and the database failures as flags; empty strings stand for missing body fields. */
  function ChangePassword(email: string, currentPassword: string, newPassword: string,
                          lookupFails: bool, lookup: Option<Account>, updateFails: bool): (r: ChangeResult)
    ensures r.stored.Some? <==> r.reply.success
    ensures r.reply.success ==>
              r.reply.status == 200 && r.stored == Some(newPassword)
              && email != "" && lookup.Some? && !Linked(lookup.value)
              && lookup.value.password == currentPassword
              && ValidatePassword(newPassword).Valid? && !lookupFails && !updateFails
    ensures email == "" || currentPassword == "" || newPassword == "" ==>
              r.reply == Reply(400, false, "All fields are required")
    ensures email != "" && currentPassword != "" && newPassword != "" ==>
              (lookupFails ==> r.reply == Reply(500, false, "Server error"))
              && (!lookupFails && lookup.None? ==> r.reply == Reply(404, false, "User not found"))
              && (!lookupFails && lookup.Some? && Linked(lookup.value) ==>
                    var p := lookup.value.oauthProvider.value;
                    r.reply == Reply(403, false, "Cannot change password for accounts registered with " + p
                                                 + ". Please manage your password through " + p + "."))
              && (!lookupFails && lookup.Some? && !Linked(lookup.value) && lookup.value.password != currentPassword ==>
                    r.reply == Reply(401, false, "Current password is incorrect"))
    ensures r.reply.status == 400 && email != "" && currentPassword != "" && newPassword != "" ==>
              ValidatePassword(newPassword) == Invalid(r.reply.message)
    // Past every check on the account, the policy and the update decide.
    ensures email != "" && currentPassword != "" && newPassword != "" && !lookupFails && lookup.Some?
            && !Linked(lookup.value) && lookup.value.password == currentPassword ==>
              (ValidatePassword(newPassword).Invalid? ==>
                 r.reply == Reply(400, false, ValidatePassword(newPassword).message))
              && (ValidatePassword(newPassword).Valid? ==>
                    (r.reply.success <==> !updateFails)
                    && (updateFails ==> r.reply == Reply(500, false, "Server error")))
  {
    if email == "" || currentPassword == "" || newPassword == "" then
      ChangeResult(Reply(400, false, "All fields are required"), None)
    else if lookupFails then
      ChangeResult(Reply(500, false, "Server error"), None)
    else if lookup.None? then
      ChangeResult(Reply(404, false, "User not found"), None)
    else if Linked(lookup.value) then
      var p := lookup.value.oauthProvider.value;
      ChangeResult(Reply(403, false, "Cannot change password for accounts registered with " + p
                                   + ". Please manage your password through " + p + "."), None)
    else if lookup.value.password != currentPassword then
      ChangeResult(Reply(401, false, "Current password is incorrect"), None)
    else match ValidatePassword(newPassword)
      case Invalid(m) =>
        ChangeResult(Reply(400, false, m), None)
      case Valid =>
        if updateFails then ChangeResult(Reply(500, false, "Server error"), None)
        else ChangeResult(Reply(200, true, "Password changed successfully"), Some(newPassword))
  }
}
