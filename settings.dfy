/** The settings page: the profile-image storage key, the initials saved with the name, and
    the client-side checks of the change-password form before it posts to the server. */
module Settings {
  import opened Js
  import Passwords

  // ------------------------------------------------------------ profile image key

  const KeyPrefix := "userProfileImage_"

  /** `userProfileImage_${userId || userEmail || 'default'}`, from the two localStorage
      entries (None when the entry is missing). */
  function ProfileImageKey(userId: Option<string>, userEmail: Option<string>): (r: string)
    ensures |r| > |KeyPrefix| && r[..|KeyPrefix|] == KeyPrefix
    ensures userId.Some? && userId.value != "" ==> r[|KeyPrefix|..] == userId.value
    ensures (userId.None? || userId.value == "") && userEmail.Some? && userEmail.value != "" ==>
              r[|KeyPrefix|..] == userEmail.value
    ensures (userId.None? || userId.value == "") && (userEmail.None? || userEmail.value == "") ==>
              r[|KeyPrefix|..] == "default"
  {
    var suffix := OrElse(userId, OrElse(userEmail, "default"));
    assert (KeyPrefix + suffix)[..|KeyPrefix|] == KeyPrefix;
    KeyPrefix + suffix
  }

  /** Two logged-in users with different ids get different keys, whatever their emails. */
  lemma KeysSeparateUsers(id1: string, id2: string, email1: Option<string>, email2: Option<string>)
    requires id1 != "" && id2 != "" && id1 != id2
    ensures ProfileImageKey(Some(id1), email1) != ProfileImageKey(Some(id2), email2)
  {
    var k1 := ProfileImageKey(Some(id1), email1);
    var k2 := ProfileImageKey(Some(id2), email2);
    assert k1[|KeyPrefix|..] != k2[|KeyPrefix|..];
  }

  // ------------------------------------------------------------ initials

  /** `words.map(n => n[0]).join('')`: an empty word gives `undefined`, which join turns into
      the empty string. */
  function FirstChars(words: seq<string>): (r: string)
    ensures |r| <= |words|
  {
    if words == [] then ""
    else (if words[0] == "" then "" else [words[0][0]]) + FirstChars(words[1..])
  }

  /** `name.split(' ').map(n => n[0]).join('').toUpperCase()` */
  function Initials(name: string): (r: string)
    ensures forall k :: 0 <= k < |r| ==> !IsLower(r[k])
  {
    ToUpper(FirstChars(Split(name, ' ')))
  }

  /** A name with no space is one word: its initial is its own first letter. */
  lemma SingleWordInitial(w: string)
    requires w != "" && ' ' !in w
    ensures Initials(w) == [UpperChar(w[0])]
  {
    SplitWithout(w, ' ');
    assert FirstChars([w]) == [w[0]] + FirstChars([]);
  }

  /** Each word adds the upper-cased first letter; an empty word (a doubled space) adds nothing. */
  lemma WordThenRest(w: string, rest: string)
    requires ' ' !in w
    ensures Initials(w + " " + rest) == (if w == "" then "" else [UpperChar(w[0])]) + Initials(rest)
  {
    SplitAfter(w, ' ', rest);
    assert w + " " + rest == w + [' '] + rest;
    var words := Split(rest, ' ');
    assert ([w] + words)[1..] == words;
    var f := FirstChars([w] + words);
    assert f == (if w == "" then "" else [w[0]]) + FirstChars(words);
    var u := Initials(w + " " + rest);
    var expected := (if w == "" then "" else [UpperChar(w[0])]) + Initials(rest);
    assert |u| == |expected|;
    forall k | 0 <= k < |u| ensures u[k] == expected[k] {
      if w == "" {
      } else if k == 0 {
      } else {
        assert f[k] == FirstChars(words)[k - 1];
      }
    }
  }

  // ------------------------------------------------------------ change password

  /** What the form holds when it is submitted. */
  datatype PasswordForm = PasswordForm(buttonDisabled: bool, current: string, proposed: string, confirm: string)

  /** The form with its three fields trimmed, as the handler reads them. */
  function Trimmed(f: PasswordForm): (t: PasswordForm)
    ensures t.buttonDisabled == f.buttonDisabled
    ensures t.current == Trim(f.current) && t.proposed == Trim(f.proposed) && t.confirm == Trim(f.confirm)
  {
    PasswordForm(f.buttonDisabled, Trim(f.current), Trim(f.proposed), Trim(f.confirm))
  }

  /** Reading the form a second time would change nothing. */
  lemma TrimmedIdempotent(f: PasswordForm)
    ensures Trimmed(Trimmed(f)) == Trimmed(f)
  {
    TrimIdempotent(f.current);
    TrimIdempotent(f.proposed);
    TrimIdempotent(f.confirm);
  }

  /** The three storage entries the email is looked up in (None when missing). */
  datatype Stored = Stored(localEmail: Option<string>, sessionEmail: Option<string>, registeredEmail: Option<string>)

  predicate Present(x: Option<string>) { x.Some? && x.value != "" }

  /** `localStorage userEmail || sessionStorage userEmail`, then `registeredEmail` when that is
      falsy; None when no entry is truthy. */
  function PasswordEmail(s: Stored): (r: Option<string>)
    ensures r.None? <==> !Present(s.localEmail) && !Present(s.sessionEmail) && !Present(s.registeredEmail)
    ensures r.Some? ==> r.value != ""
    ensures Present(s.localEmail) ==> r == s.localEmail
    ensures !Present(s.localEmail) && Present(s.sessionEmail) ==> r == s.sessionEmail
    ensures !Present(s.localEmail) && !Present(s.sessionEmail) && Present(s.registeredEmail) ==> r == s.registeredEmail
  {
    var first := if Present(s.localEmail) then s.localEmail else s.sessionEmail;
    var email := if Present(first) then first else s.registeredEmail;
    if Present(email) then email else None
  }

  const ThirdPartyMessage := "Password changes are not allowed for accounts using third-party authentication."
  const RequiredMessage := "All fields are required"
  const MismatchMessage := "New passwords do not match"
  const ShortMessage := "New password must be at least 4 characters long"
  const UnchangedMessage := "New password must be different from current password"
  const LoginMessage := "Please log in first to change your password"

  /** The client's checks, in the order the handler makes them. */
  datatype ClientRule = Allowed | Filled | Matching | LongEnough | Changed | LoggedIn

  const ClientRules: seq<ClientRule> := [Allowed, Filled, Matching, LongEnough, Changed, LoggedIn]

  /** Whether a rule holds of the trimmed form and the email found. */
  predicate RuleHolds(rule: ClientRule, t: PasswordForm, email: Option<string>) {
    match rule
    case Allowed => !t.buttonDisabled
    case Filled => t.current != "" && t.proposed != "" && t.confirm != ""
    case Matching => t.proposed == t.confirm
    case LongEnough => |t.proposed| >= 4
    case Changed => t.proposed != t.current
    case LoggedIn => email.Some?
  }

  function RuleMessage(rule: ClientRule): string {
    match rule
    case Allowed => ThirdPartyMessage
    case Filled => RequiredMessage
    case Matching => MismatchMessage
    case LongEnough => ShortMessage
    case Changed => UnchangedMessage
    case LoggedIn => LoginMessage
  }

  /** The first rule of `rules` that fails. */
  function FirstFailing(rules: seq<ClientRule>, t: PasswordForm, email: Option<string>): (r: Option<nat>)
    ensures r.None? <==> forall k :: 0 <= k < |rules| ==> RuleHolds(rules[k], t, email)
    ensures r.Some? ==> r.value < |rules| && !RuleHolds(rules[r.value], t, email)
                        && forall j :: 0 <= j < r.value ==> RuleHolds(rules[j], t, email)
  {
    if rules == [] then None
    else if !RuleHolds(rules[0], t, email) then Some(0)
    else match FirstFailing(rules[1..], t, email)
         case None => None
         case Some(k) => Some(k + 1)
  }

  /** The body posted to /change-password. */
  datatype ChangeRequest = ChangeRequest(email: string, currentPassword: string, newPassword: string)

  /** A message shown with no request, or the request sent. */
  datatype Submission = Refused(message: string) | Post(request: ChangeRequest)

  /** The checks on the trimmed form and the email found: the first failing check's message,
      or the request with the trimmed passwords. */
  function CheckTrimmed(t: PasswordForm, email: Option<string>): (r: Submission)
    ensures FirstFailing(ClientRules, t, email).None? ==> email.Some?
    ensures r == match FirstFailing(ClientRules, t, email)
                 case Some(k) => Refused(RuleMessage(ClientRules[k]))
                 case None => Post(ChangeRequest(email.value, t.current, t.proposed))
  {
    FirstFailingUnfolded(t, email);
    assert ClientRules[5] == LoggedIn;
    if t.buttonDisabled then Refused(ThirdPartyMessage)
    else if t.current == "" || t.proposed == "" || t.confirm == "" then Refused(RequiredMessage)
    else if t.proposed != t.confirm then Refused(MismatchMessage)
    else if |t.proposed| < 4 then Refused(ShortMessage)
    else if t.proposed == t.current then Refused(UnchangedMessage)
    else match email
      case None => Refused(LoginMessage)
      case Some(e) => Post(ChangeRequest(e, t.current, t.proposed))
  }

  /** The submit handler up to the fetch. */
  function SubmitPasswordChange(f: PasswordForm, s: Stored): (r: Submission)
    ensures f.buttonDisabled ==> r == Refused(ThirdPartyMessage)
    ensures (!f.buttonDisabled && Trim(f.current) != "" && Trim(f.proposed) != "" && Trim(f.confirm) != ""
             && Trim(f.proposed) != Trim(f.confirm)) ==> r == Refused(MismatchMessage)
    ensures r.Post? ==> r.request.email != "" && Some(r.request.email) == PasswordEmail(s)
                        && r.request.currentPassword == Trim(f.current)
                        && r.request.newPassword == Trim(f.proposed) == Trim(f.confirm)
  {
    PostedIffRulesHold(Trimmed(f), PasswordEmail(s));
    CheckTrimmed(Trimmed(f), PasswordEmail(s))
  }

  /** FirstFailing on the handler's rules, unfolded check by check. */
  lemma FirstFailingUnfolded(t: PasswordForm, email: Option<string>)
    ensures FirstFailing(ClientRules, t, email) ==
              if !RuleHolds(Allowed, t, email) then Some(0)
              else if !RuleHolds(Filled, t, email) then Some(1)
              else if !RuleHolds(Matching, t, email) then Some(2)
              else if !RuleHolds(LongEnough, t, email) then Some(3)
              else if !RuleHolds(Changed, t, email) then Some(4)
              else if !RuleHolds(LoggedIn, t, email) then Some(5)
              else None
  {
    // the first failing index is determined by FirstFailing's contract alone
    var r := FirstFailing(ClientRules, t, email);
    assert ClientRules[0] == Allowed && ClientRules[1] == Filled && ClientRules[2] == Matching;
    assert ClientRules[3] == LongEnough && ClientRules[4] == Changed && ClientRules[5] == LoggedIn;
    assert r.Some? ==> r.value < 6;
  }

  /** On the trimmed form: a request is posted exactly when every check passes, and it
      carries the email found and the checked passwords. */
  lemma PostedIffRulesHold(t: PasswordForm, email: Option<string>)
    ensures CheckTrimmed(t, email).Post? <==>
              forall k :: 0 <= k < |ClientRules| ==> RuleHolds(ClientRules[k], t, email)
    ensures CheckTrimmed(t, email).Post? ==>
              var q := CheckTrimmed(t, email).request;
              email == Some(q.email) && q.currentPassword == t.current && q.newPassword == t.proposed
              && t.current != "" && |t.proposed| >= 4 && t.proposed == t.confirm && t.proposed != t.current
  {
    if CheckTrimmed(t, email).Post? {
      assert RuleHolds(ClientRules[1], t, email) && RuleHolds(ClientRules[2], t, email);
      assert RuleHolds(ClientRules[3], t, email) && RuleHolds(ClientRules[4], t, email);
    }
  }

  /** A request is posted exactly when every check passes; its passwords are the trimmed
      fields, non-empty, equal to the confirmation and different from each other. */
  lemma PostedMeansChecked(f: PasswordForm, s: Stored)
    ensures SubmitPasswordChange(f, s).Post? <==>
              forall k :: 0 <= k < |ClientRules| ==> RuleHolds(ClientRules[k], Trimmed(f), PasswordEmail(s))
    ensures SubmitPasswordChange(f, s).Post? ==>
              var q := SubmitPasswordChange(f, s).request;
              q.email != "" && q.currentPassword != "" && |q.newPassword| >= 4
              && q.newPassword == Trim(f.confirm) && q.newPassword != q.currentPassword
  {
    PostedIffRulesHold(Trimmed(f), PasswordEmail(s));
  }

  /** Every password the server's policy accepts passes the client's length check, so the
      client never refuses for length a password the server would take. */
  lemma ServerValidIsLongEnough(p: string)
    requires Passwords.ValidatePassword(p).Valid?
    ensures |p| >= 4
  {
    Passwords.ValidIffPolicy(p);
  }

  /** The converse fails: a new password of four to seven characters passes every client
      check, and the server, even with the right current password, answers 400 with its
      length message. */
  lemma ClientLooserThanServer(f: PasswordForm, s: Stored, account: Passwords.Account)
    requires SubmitPasswordChange(f, s).Post? && |Trim(f.proposed)| < 8
    requires account.password == Trim(f.current) && !Passwords.Linked(account)
    ensures var q := SubmitPasswordChange(f, s).request;
            Passwords.ChangePassword(q.email, q.currentPassword, q.newPassword, false, Some(account), false).reply
            == Passwords.Reply(400, false, Passwords.LengthMessage)
  {
    PostedMeansChecked(f, s);
    var q := SubmitPasswordChange(f, s).request;
    ShortRejected(q.email, q.currentPassword, q.newPassword, account);
  }

  lemma ShortRejected(email: string, current: string, proposed: string, account: Passwords.Account)
    requires email != "" && current != "" && proposed != "" && |proposed| < 8
    requires account.password == current && !Passwords.Linked(account)
    ensures Passwords.ChangePassword(email, current, proposed, false, Some(account), false).reply
            == Passwords.Reply(400, false, Passwords.LengthMessage)
  {
    Passwords.FirstBrokenRules(proposed);
    assert Passwords.ValidatePassword(proposed) == Passwords.Invalid(Passwords.LengthMessage);
  }
}
