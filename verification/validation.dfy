/**
  The contact form's client-side validation: the four field checks of `validateForm`
  and the email pattern of `isValidEmail`, as functions of the submitted values.
 */
module FormValidation {
  import opened JsText

  /**
    The form's values as collected through `FormData`: a field whose control is absent
    from the form is `None` (`undefined` in the page script).
   */
  datatype FormData = FormData(
    name: Option<JsString>,
    email: Option<JsString>,
    service: Option<JsString>,
    message: Option<JsString>)

  /** The four checks, in the order the validator runs them. */
  datatype Check = NameCheck | EmailCheck | ServiceCheck | MessageCheck

  function Rank(c: Check): nat {
    match c
    case NameCheck => 0
    case EmailCheck => 1
    case ServiceCheck => 2
    case MessageCheck => 3
  }

  function ErrorText(c: Check): string {
    match c
    case NameCheck => "Name must be at least 2 characters long"
    case EmailCheck => "Please enter a valid email address"
    case ServiceCheck => "Please select a service"
    case MessageCheck => "Message must be at least 10 characters long"
  }

  /** JavaScript truthiness of an optional form value: `undefined` and `""` are falsy. */
  predicate Truthy(v: Option<JsString>) {
    v.Some? && v.value != []
  }

  // ---------------------------------------------------------------------------
  // The email pattern /^[^\s@]+@[^\s@]+\.[^\s@]+$/

  /** A unit the class `[^\s@]` accepts. */
  predicate LocalUnit(c: CodeUnit) {
    !IsWhiteSpace(c) && c != AtSign
  }

  predicate AllLocal(s: JsString) {
    forall i :: 0 <= i < |s| ==> LocalUnit(s[i])
  }

  /**
    What the regular expression accepts: the whole string is `A@B.C` with `A`, `B` and
    `C` non-empty and free of white space and `@` (`B` may itself contain dots).
   */
  ghost predicate MatchesEmailPattern(s: JsString) {
    exists at, dot ::
      0 < at && at + 1 < dot && dot + 1 < |s| &&
      s[at] == AtSign && s[dot] == FullStop &&
      AllLocal(s[..at]) && AllLocal(s[at + 1..dot]) && AllLocal(s[dot + 1..])
  }

  /** Index of the first `x` in `s`, or `|s|` when there is none. */
  function IndexOf(s: JsString, x: CodeUnit): (k: nat)
    ensures k <= |s|
    ensures forall i :: 0 <= i < k ==> s[i] != x
    ensures k < |s| ==> s[k] == x
  {
    if s == [] then 0 else if s[0] == x then 0 else 1 + IndexOf(s[1..], x)
  }

  /** `d` holds a dot that is neither its first nor its last unit. */
  predicate HasInnerDot(d: JsString) {
    exists k :: 0 < k < |d| - 1 && d[k] == FullStop
  }

  /**
    `isValidEmail`, decided by looking at the string directly: no white space, exactly
    one `@`, something before it, and an inner dot in the part after it.
   */
  predicate IsValidEmail(s: JsString) {
    var at := IndexOf(s, AtSign);
    && (forall i :: 0 <= i < |s| ==> !IsWhiteSpace(s[i]))
    && 0 < at < |s|
    && IndexOf(s[at + 1..], AtSign) == |s| - at - 1
    && HasInnerDot(s[at + 1..])
  }

  /** The direct test agrees with the regular expression on every string. */
  lemma EmailTestMatchesPattern(s: JsString)
    ensures IsValidEmail(s) <==> MatchesEmailPattern(s)
  {
    if IsValidEmail(s) {
      TestImpliesPattern(s);
    }
    if MatchesEmailPattern(s) {
      var at, dot :|
        0 < at && at + 1 < dot && dot + 1 < |s| &&
        s[at] == AtSign && s[dot] == FullStop &&
        AllLocal(s[..at]) && AllLocal(s[at + 1..dot]) && AllLocal(s[dot + 1..]);
      PatternImpliesTest(s, at, dot);
    }
  }

  lemma TestImpliesPattern(s: JsString)
    requires IsValidEmail(s)
    ensures MatchesEmailPattern(s)
  {
    var at := IndexOf(s, AtSign);
    var d := s[at + 1..];
    var k :| 0 < k < |d| - 1 && d[k] == FullStop;
    var dot := at + 1 + k;
    assert s[dot] == FullStop;
    assert forall i :: at < i < |s| ==> s[i] == d[i - at - 1] && s[i] != AtSign;
    assert AllLocal(s[..at]);
    assert AllLocal(s[at + 1..dot]);
    assert AllLocal(s[dot + 1..]);
  }

  lemma PatternImpliesTest(s: JsString, at: nat, dot: nat)
    requires 0 < at && at + 1 < dot && dot + 1 < |s|
    requires s[at] == AtSign && s[dot] == FullStop
    requires AllLocal(s[..at]) && AllLocal(s[at + 1..dot]) && AllLocal(s[dot + 1..])
    ensures IsValidEmail(s)
  {
    assert forall i :: 0 <= i < at ==> s[..at][i] == s[i];
    assert forall i :: at < i < dot ==> s[at + 1..dot][i - at - 1] == s[i];
    assert forall i :: dot < i < |s| ==> s[dot + 1..][i - dot - 1] == s[i];
    assert forall i :: 0 <= i < |s| && i != at ==> LocalUnit(s[i]);
    assert IndexOf(s, AtSign) == at;
    var d := s[at + 1..];
    assert AllLocal(d);
    assert IndexOf(d, AtSign) == |d|;
    assert d[dot - at - 1] == FullStop;
  }

  // ---------------------------------------------------------------------------
  // validateForm

  /** When each check fails, stated without JavaScript truthiness or the email scan. */
  ghost predicate Violated(c: Check, d: FormData) {
    match c
    case NameCheck => d.name.None? || |Trim(d.name.value)| < 2
    case EmailCheck => d.email.None? || !MatchesEmailPattern(d.email.value)
    case ServiceCheck => d.service.None? || d.service.value == []
    case MessageCheck => d.message.None? || |Trim(d.message.value)| < 10
  }

  /** Strictly increasing rank: each check at most once, in the validator's order. */
  predicate InCheckOrder(r: seq<Check>) {
    forall i, j :: 0 <= i < j < |r| ==> Rank(r[i]) < Rank(r[j])
  }

  /**
    The checks `validateForm` reports, each at most once, in the fixed order name,
    email, service, message; a check appears exactly when it is violated.
   */
  function FailingChecks(d: FormData): (r: seq<Check>)
    ensures forall c :: c in r <==> Violated(c, d)
    ensures InCheckOrder(r)
  {
    var name := if !Truthy(d.name) || |Trim(d.name.value)| < 2 then [NameCheck] else [];
    var email := if !Truthy(d.email) || !IsValidEmail(d.email.value) then [EmailCheck] else [];
    var service := if !Truthy(d.service) then [ServiceCheck] else [];
    var message := if !Truthy(d.message) || |Trim(d.message.value)| < 10 then [MessageCheck] else [];
    var r := name + email + service + message;
    PartsMatchViolations(d, name, email, service, message);
    OrderedAppend(name, email);
    OrderedAppend(name + email, service);
    OrderedAppend(name + email + service, message);
    r
  }

  /** Each of the validator's four tests reports its check exactly when that check is violated. */
  lemma PartsMatchViolations(d: FormData, name: seq<Check>, email: seq<Check>, service: seq<Check>, message: seq<Check>)
    requires name == if !Truthy(d.name) || |Trim(d.name.value)| < 2 then [NameCheck] else []
    requires email == if !Truthy(d.email) || !IsValidEmail(d.email.value) then [EmailCheck] else []
    requires service == if !Truthy(d.service) then [ServiceCheck] else []
    requires message == if !Truthy(d.message) || |Trim(d.message.value)| < 10 then [MessageCheck] else []
    ensures forall c :: c in name + email + service + message <==> Violated(c, d)
  {
    EmailVerdict(d);
    assert Trim([]) == [];
    forall c ensures c in name + email + service + message <==> Violated(c, d) {
      assert c in name + email + service + message <==> c in name || c in email || c in service || c in message;
      match c
      case NameCheck =>
      case EmailCheck =>
      case ServiceCheck =>
      case MessageCheck =>
    }
  }

  lemma OrderedAppend(a: seq<Check>, b: seq<Check>)
    requires InCheckOrder(a) && |b| <= 1
    requires forall x, y :: x in a && y in b ==> Rank(x) < Rank(y)
    ensures InCheckOrder(a + b)
  {
    forall i, j | 0 <= i < j < |a + b| ensures Rank((a + b)[i]) < Rank((a + b)[j]) {
      if j >= |a| {
        assert (a + b)[i] in a && (a + b)[j] in b;
      }
    }
  }

  lemma EmailVerdict(d: FormData)
    ensures (!Truthy(d.email) || !IsValidEmail(d.email.value)) <==> Violated(EmailCheck, d)
  {
    if d.email.Some? {
      EmailTestMatchesPattern(d.email.value);
    }
  }

  /** The messages `validateForm` collects: one per failing check, in check order. */
  function FormErrors(d: FormData): (errors: seq<string>)
    ensures |errors| == |FailingChecks(d)|
    ensures forall c :: ErrorText(c) in errors <==> Violated(c, d)
    ensures errors == [] <==> forall c :: !Violated(c, d)
  {
    var checks := FailingChecks(d);
    var errors := seq(|checks|, i requires 0 <= i < |checks| => ErrorText(checks[i]));
    assert forall c :: ErrorText(c) in errors ==> c in checks by {
      forall c | ErrorText(c) in errors ensures c in checks {
        var i :| 0 <= i < |errors| && errors[i] == ErrorText(c);
        ErrorTextInjective(c, checks[i]);
      }
    }
    assert forall c :: c in checks ==> ErrorText(c) in errors by {
      forall c | c in checks ensures ErrorText(c) in errors {
        var i :| 0 <= i < |checks| && checks[i] == c;
        assert errors[i] == ErrorText(c);
      }
    }
    assert errors == [] ==> forall c :: !Violated(c, d) by {
      if errors == [] {
        assert checks == [];
      }
    }
    assert (forall c :: !Violated(c, d)) ==> errors == [] by {
      if errors != [] {
        assert Violated(checks[0], d);
      }
    }
    errors
  }

  /** No two checks share a message, so each message stands for one failing check. */
  lemma ErrorTextInjective(c: Check, c': Check)
    ensures ErrorText(c) == ErrorText(c') ==> c == c'
  {
    if c != c' {
      assert |ErrorText(NameCheck)| == 39 && |ErrorText(EmailCheck)| == 34;
      assert |ErrorText(ServiceCheck)| == 23 && |ErrorText(MessageCheck)| == 43;
    }
  }

  /** The message list names every failing check once, in the order name, email, service, message. */
  lemma ErrorsInCheckOrder(d: FormData, i: nat, j: nat)
    requires i < j < |FormErrors(d)|
    ensures exists c, c' :: Rank(c) < Rank(c') && FormErrors(d)[i] == ErrorText(c) && FormErrors(d)[j] == ErrorText(c')
  {
    var checks := FailingChecks(d);
    assert FormErrors(d)[i] == ErrorText(checks[i]);
    assert FormErrors(d)[j] == ErrorText(checks[j]);
  }

  /** A single non-blank unit padded with spaces is too short a name once trimmed. */
  lemma PaddedInitialIsRejected(c: CodeUnit, pad: nat)
    requires !IsWhiteSpace(c)
    ensures var spaces := seq(pad, _ => 0x20 as CodeUnit);
            Violated(NameCheck, FormData(Some(spaces + [c] + spaces), None, None, None))
  {
    var spaces := seq(pad, _ => 0x20 as CodeUnit);
    TrimUnique(spaces, [c], spaces);
  }

  /** A well-formed submission passes every check. */
  lemma SampleSubmissionAccepted(name: JsString, email: JsString, service: JsString, message: JsString)
    requires name == Js("Al") && email == Js("a@b.c")
    requires service == Js("design") && message == Js("1234567890")
    ensures FormErrors(FormData(Some(name), Some(email), Some(service), Some(message))) == []
  {
    SampleName(name);
    SampleEmail(email);
    SampleMessage(message);
    assert |service| == 6;
    AcceptedWhen(name, email, service, message);
  }

  lemma AcceptedWhen(name: JsString, email: JsString, service: JsString, message: JsString)
    requires |Trim(name)| >= 2 && MatchesEmailPattern(email)
    requires service != [] && |Trim(message)| >= 10
    ensures FormErrors(FormData(Some(name), Some(email), Some(service), Some(message))) == []
  {
    NothingViolatedNoErrors(FormData(Some(name), Some(email), Some(service), Some(message)));
  }

  lemma NothingViolatedNoErrors(d: FormData)
    requires !Violated(NameCheck, d) && !Violated(EmailCheck, d)
    requires !Violated(ServiceCheck, d) && !Violated(MessageCheck, d)
    ensures FormErrors(d) == []
  {
    assert forall c :: !Violated(c, d) by {
      forall c ensures !Violated(c, d) {
        match c
        case NameCheck =>
        case EmailCheck =>
        case ServiceCheck =>
        case MessageCheck =>
      }
    }
  }

  lemma SampleName(name: JsString)
    requires name == Js("Al")
    ensures |Trim(name)| == 2
  {
    assert name == [0x41, 0x6C];
    TrimUnique([], name, []);
    assert [] + name + [] == name;
  }

  lemma SampleMessage(message: JsString)
    requires message == Js("1234567890")
    ensures |Trim(message)| == 10
  {
    assert message == [0x31, 0x32, 0x33, 0x34, 0x35, 0x36, 0x37, 0x38, 0x39, 0x30];
    TrimUnique([], message, []);
    assert [] + message + [] == message;
  }

  lemma SampleEmail(email: JsString)
    requires email == Js("a@b.c")
    ensures MatchesEmailPattern(email)
  {
    assert email == [0x61, 0x40, 0x62, 0x2E, 0x63];
    assert email[..1] == [0x61] && email[2..3] == [0x62] && email[4..] == [0x63];
    PatternImpliesTest(email, 1, 3);
    EmailTestMatchesPattern(email);
  }

  /** A submission failing all four checks gets all four messages, in check order. */
  lemma SampleSubmissionRejected(name: JsString, email: JsString, service: JsString, message: JsString)
    requires name == Js("A") && email == Js("bad")
    requires service == Js("") && message == Js("short")
    ensures FormErrors(FormData(Some(name), Some(email), Some(service), Some(message))) ==
      [ErrorText(NameCheck), ErrorText(EmailCheck), ErrorText(ServiceCheck), ErrorText(MessageCheck)]
  {
    assert |name| == 1 && |message| == 5 && service == [];
    SampleBadEmail(email);
    RejectedWhen(name, email, service, message);
  }

  lemma RejectedWhen(name: JsString, email: JsString, service: JsString, message: JsString)
    requires |name| < 2 && !MatchesEmailPattern(email)
    requires service == [] && |message| < 10
    ensures FormErrors(FormData(Some(name), Some(email), Some(service), Some(message))) ==
      [ErrorText(NameCheck), ErrorText(EmailCheck), ErrorText(ServiceCheck), ErrorText(MessageCheck)]
  {
    var d := FormData(Some(name), Some(email), Some(service), Some(message));
    TrimSpec(name);
    TrimSpec(message);
    assert Violated(NameCheck, d) && Violated(EmailCheck, d);
    assert Violated(ServiceCheck, d) && Violated(MessageCheck, d);
    AllViolatedAllErrors(d);
  }

  lemma AllViolatedAllErrors(d: FormData)
    requires Violated(NameCheck, d) && Violated(EmailCheck, d)
    requires Violated(ServiceCheck, d) && Violated(MessageCheck, d)
    ensures FormErrors(d) == [ErrorText(NameCheck), ErrorText(EmailCheck), ErrorText(ServiceCheck), ErrorText(MessageCheck)]
  {
    var checks := FailingChecks(d);
    AllFourInOrder(checks);
  }

  lemma SampleBadEmail(email: JsString)
    requires email == Js("bad")
    ensures !MatchesEmailPattern(email)
  {
    assert email == [0x62, 0x61, 0x64];
    assert IndexOf(email, AtSign) == 3;
    EmailTestMatchesPattern(email);
  }

  /** A check list in order that holds all four checks is the full list. */
  lemma AllFourInOrder(checks: seq<Check>)
    requires InCheckOrder(checks)
    requires NameCheck in checks && EmailCheck in checks && ServiceCheck in checks && MessageCheck in checks
    ensures checks == [NameCheck, EmailCheck, ServiceCheck, MessageCheck]
  {
    var a :| 0 <= a < |checks| && checks[a] == NameCheck;
    var b :| 0 <= b < |checks| && checks[b] == EmailCheck;
    var c :| 0 <= c < |checks| && checks[c] == ServiceCheck;
    var m :| 0 <= m < |checks| && checks[m] == MessageCheck;
    assert a < b < c < m;
    RankAtLeastIndex(checks, m);
    RankAtLeastIndex(checks, |checks| - 1);
    assert |checks| == 4;
    assert a == 0 && b == 1 && c == 2 && m == 3;
  }

  lemma {:induction false} RankAtLeastIndex(checks: seq<Check>, i: nat)
    requires InCheckOrder(checks) && i < |checks|
    ensures Rank(checks[i]) >= i
  {
    if i > 0 {
      RankAtLeastIndex(checks, i - 1);
    }
  }
}
