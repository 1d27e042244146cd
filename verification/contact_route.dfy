/** The contact-form endpoint (`POST` in app/api/contact/route.ts): an
    ordered chain of checks whose first failure decides the reply, a rate
    limit shared by all requests of the process, and, on a full pass, one
    outbound e-mail. The clock, the environment, the bot classifier and the
    mail provider's answer are parameters. */
module ContactRoute {

  import opened Wrappers
  import opened Text
  import opened ContactHtml
  import opened ContactRateLimit

  const SubjectPrefix := "THOUGHTAKEN Contact"
  const MinSubmitDelayMs: int := 2500
  const NameMinLength: nat := 2
  const NameMaxLength: nat := 80
  const MessageMinLength: nat := 15
  const MessageMaxLength: nat := 2000
  const MaxLinksInMessage: nat := 2
  const ErrorBotBlocked := "Bot traffic is blocked."
  const ErrorSubmissionValidation := "Submission validation failed."
  const ErrorTooManySubmissions := "Too many submissions. Please try again later."
  const ErrorAllFieldsRequired := "All fields are required."
  const ErrorInvalidNameLength := "Name must be between 2 and 80 characters."
  const ErrorInvalidMessageLength := "Message must be between 15 and 2000 characters."
  const ErrorSpamBlocked := "Message looks like spam and was blocked."
  const ErrorInvalidEmail := "Please enter a valid email."
  const ErrorMissingMailConfig :=
    "Contact forwarding is not configured yet. Add MAILJET_* and CONTACT_TO env variables."
  const ErrorSendFailure := "Unable to send message right now."
  const DefaultFromName := "ThoughtTaken"
  /** The notice in the text part between the sender's address and the
      message, followed there by the address again. */
  const NoReplyNotice :=
    "\nPlease do not reply to this email. Replies here are not monitored.\nTo respond, email the sender directly at: "

  /** One property of the parsed JSON body: missing (or `null`), a string, a
      number (epoch milliseconds, whole), or any other JSON value. */
  datatype JsonValue = Absent | Str(text: string) | Num(number: int) | OtherValue

  /** The `ContactPayload` fields as they arrived. */
  datatype Payload = Payload(
    name: JsonValue, email: JsonValue, message: JsonValue,
    company: JsonValue, formStartedAt: JsonValue)

  /** What the handler reads from the request. `isBot` is the verdict of the
      `isbot` classifier on the user-agent header; `body` is `None` when
      reading the body throws (malformed JSON, or a `null` body); the two
      headers are `None` when absent. */
  datatype Request = Request(
    isBot: bool, body: Option<Payload>,
    forwardedFor: Option<string>, realIp: Option<string>)

  /** The mail settings read from the environment. */
  datatype MailEnv = MailEnv(
    apiKey: Option<string>, apiSecret: Option<string>, fromEmail: Option<string>,
    fromName: Option<string>, contactTo: Option<string>)

  /** The JSON reply: `{ ok: true }` (status 200), or `{ ok: false, error }`
      with a status code. */
  datatype Reply = Accepted | Rejected(status: nat, error: string)

  /** The message handed to the mail provider: addressing, subject, the
      plain-text part, and the three submitter values as interpolated into
      the HTML part. */
  datatype Mail = Mail(
    fromEmail: string, fromName: string, to: string, replyTo: string,
    subject: string, textPart: string,
    htmlName: string, htmlEmail: string, htmlMessage: string)

  /** The reply, the message sent (if a send was attempted), and the rate
      limiter's ledger afterwards. */
  datatype Outcome = Outcome(reply: Reply, sent: Option<Mail>, ledger: Ledger)

  /** The value of `field?.trim()`: `undefined`, a trimmed string, or a
      thrown `TypeError` (a present value that is not a string has no
      `trim`). */
  datatype Trimmed = Undefined | Defined(text: string) | TypeError

  /** `field?.trim()`: absent stays `undefined`, a string is trimmed, any
      other value throws; the result is truthy exactly for a string with a
      non-whitespace character. */
  function TrimField(v: JsonValue): (r: Trimmed)
    ensures r.Undefined? <==> v.Absent?
    ensures r.Defined? <==> v.Str?
    ensures r.Defined? ==> r.text == Trim(v.text)
    ensures r.TypeError? <==> v.Num? || v.OtherValue?
    ensures Truthy(r) <==> v.Str? && exists k | 0 <= k < |v.text| :: !IsSpace(v.text[k])
  {
    match v
    case Absent => Undefined
    case Str(s) => Defined(Trim(s))
    case _ => TypeError
  }

  /** JavaScript truthiness of a trimmed field: a non-empty string. */
  predicate Truthy(t: Trimmed) {
    t.Defined? && t.text != []
  }

  // ---------------------------------------------------------------------
  // Client identification

  /** `s.split(",")[0]`: everything before the first comma. */
  function FirstSegment(s: string): (r: string)
    ensures |r| <= |s| && r == s[..|r|]
    ensures ',' !in r
    ensures |r| == |s| || s[|r|] == ','
  {
    if s == [] || s[0] == ',' then [] else [s[0]] + FirstSegment(s[1..])
  }

  /** `getClientIp`: the first `x-forwarded-for` entry, trimmed, if it is
      not empty; else `x-real-ip` if it is not empty; else `"unknown"`, one
      bucket shared by every unidentifiable client. */
  function ClientIp(forwardedFor: Option<string>, realIp: Option<string>): (ip: string)
    ensures ip != []
    ensures forwardedFor.Some? && Trim(FirstSegment(forwardedFor.value)) != [] ==>
      ip == Trim(FirstSegment(forwardedFor.value))
    ensures (forwardedFor.None? || Trim(FirstSegment(forwardedFor.value)) == []) ==>
      ip == (if realIp.Some? && realIp.value != [] then realIp.value else "unknown")
  {
    var forwarded := if forwardedFor.Some? then Trim(FirstSegment(forwardedFor.value)) else "";
    if forwarded != [] then forwarded
    else if realIp.Some? && realIp.value != [] then realIp.value
    else "unknown"
  }

  /** An identifier taken from `x-forwarded-for` is a single entry: no comma
      and no surrounding whitespace. */
  lemma {:induction false} ForwardedIpIsOneEntry(forwardedFor: string, realIp: Option<string>)
    requires Trim(FirstSegment(forwardedFor)) != []
    ensures var ip := ClientIp(Some(forwardedFor), realIp);
      ',' !in ip && !IsSpace(ip[0]) && !IsSpace(ip[|ip| - 1])
  {
    var seg := FirstSegment(forwardedFor);
    TrimmedSegmentIsOneEntry(seg);
    assert ClientIp(Some(forwardedFor), realIp) == Trim(seg);
  }

  /** Trimming a segment without commas leaves one entry. */
  lemma TrimmedSegmentIsOneEntry(seg: string)
    requires ',' !in seg && Trim(seg) != []
    ensures var ip := Trim(seg);
      ',' !in ip && !IsSpace(ip[0]) && !IsSpace(ip[|ip| - 1])
  {
    TrimKeepsCharacters(seg);
  }

  // ---------------------------------------------------------------------
  // Spam heuristic

  /** Length of a `https?://` or `www.` match at index `i` of the
      lower-cased message, or 0 when none starts there. */
  function UrlMatchLen(l: string, i: nat): (n: nat)
    ensures n in {0, 4, 7, 8}
  {
    if OccursAt(l, "http://", i) then 7
    else if OccursAt(l, "https://", i) then 8
    else if OccursAt(l, "www.", i) then 4
    else 0
  }

  /** The global match of `URL_REGEX` from index `i`: matches are taken left
      to right and do not overlap. */
  function UrlCountFrom(l: string, i: nat): nat
    decreases |l| - i
  {
    if i >= |l| then 0
    else
      var n := UrlMatchLen(l, i);
      if n > 0 then 1 + UrlCountFrom(l, i + n) else UrlCountFrom(l, i + 1)
  }

  /** The indices at or after `i` where a link match could start. */
  function LinkStarts(l: string, i: nat): set<nat> {
    set k: nat | i <= k < |l| && UrlMatchLen(l, k) > 0
  }

  /** `(message.match(URL_REGEX) || []).length`; the `i` flag on an
      all-ASCII pattern folds ASCII letters only. The count is the number
      of indices where a link starts: matches never nest, so the left-to-right
      scan misses none of them. */
  function UrlCount(message: string): (n: nat)
    ensures n == |LinkStarts(LowerAsciiString(message), 0)|
  {
    UrlCountIsLinkStarts(LowerAsciiString(message), 0);
    UrlCountFrom(LowerAsciiString(message), 0)
  }

  /** The characters a link match consists of. */
  lemma UrlMatchChars(l: string, i: nat)
    ensures var n := UrlMatchLen(l, i);
      && (n == 7 ==> i + 7 <= |l| && l[i] == 'h' && l[i + 1] == 't' && l[i + 2] == 't' &&
                     l[i + 3] == 'p' && l[i + 4] == ':' && l[i + 5] == '/' && l[i + 6] == '/')
      && (n == 8 ==> i + 8 <= |l| && l[i] == 'h' && l[i + 1] == 't' && l[i + 2] == 't' &&
                     l[i + 3] == 'p' && l[i + 4] == 's' && l[i + 5] == ':' && l[i + 6] == '/' &&
                     l[i + 7] == '/')
      && (n == 4 ==> i + 4 <= |l| && l[i] == 'w' && l[i + 1] == 'w' && l[i + 2] == 'w' &&
                     l[i + 3] == '.')
  {
    if OccursAt(l, "http://", i) {
      var m := l[i..i + 7];
      assert m[0] == l[i] && m[1] == l[i + 1] && m[2] == l[i + 2] && m[3] == l[i + 3];
      assert m[4] == l[i + 4] && m[5] == l[i + 5] && m[6] == l[i + 6];
    } else if OccursAt(l, "https://", i) {
      var m := l[i..i + 8];
      assert m[0] == l[i] && m[1] == l[i + 1] && m[2] == l[i + 2] && m[3] == l[i + 3];
      assert m[4] == l[i + 4] && m[5] == l[i + 5] && m[6] == l[i + 6] && m[7] == l[i + 7];
    } else if OccursAt(l, "www.", i) {
      var m := l[i..i + 4];
      assert m[0] == l[i] && m[1] == l[i + 1] && m[2] == l[i + 2] && m[3] == l[i + 3];
    }
  }

  /** A link match never covers the start of another one: the matched texts
      hold no `h` and no `www.` after their first character. */
  lemma UrlMatchesDoNotNest(l: string, j: nat, k: nat)
    requires UrlMatchLen(l, j) > 0 && UrlMatchLen(l, k) > 0 && j < k
    ensures j + UrlMatchLen(l, j) <= k
  {
    UrlMatchChars(l, j);
    UrlMatchChars(l, k);
  }

  /** The scan from `i` counts exactly the link starts at or after `i`. */
  lemma {:induction false} UrlCountIsLinkStarts(l: string, i: nat)
    ensures UrlCountFrom(l, i) == |LinkStarts(l, i)|
    decreases |l| - i
  {
    if i >= |l| {
      assert LinkStarts(l, i) == {};
    } else if UrlMatchLen(l, i) > 0 {
      LinkStartsCountMatch(l, i);
      UrlCountIsLinkStarts(l, i + UrlMatchLen(l, i));
    } else {
      assert LinkStarts(l, i) == LinkStarts(l, i + 1);
      UrlCountIsLinkStarts(l, i + 1);
    }
  }

  /** A match at `i` adds one link start to those after the match. */
  lemma LinkStartsCountMatch(l: string, i: nat)
    requires i < |l| && UrlMatchLen(l, i) > 0
    ensures i + UrlMatchLen(l, i) <= |l|
    ensures |LinkStarts(l, i)| == 1 + |LinkStarts(l, i + UrlMatchLen(l, i))|
  {
    LinkStartsAfterMatch(l, i);
  }

  /** A match at `i` covers no other link start, so the starts from `i`
      are `i` and the starts after the match. */
  lemma LinkStartsAfterMatch(l: string, i: nat)
    requires i < |l| && UrlMatchLen(l, i) > 0
    ensures i + UrlMatchLen(l, i) <= |l|
    ensures LinkStarts(l, i) == {i} + LinkStarts(l, i + UrlMatchLen(l, i))
    ensures i !in LinkStarts(l, i + UrlMatchLen(l, i))
  {
    var n := UrlMatchLen(l, i);
    UrlMatchChars(l, i);
    forall k | i < k < i + n
      ensures UrlMatchLen(l, k) == 0
    {
      if UrlMatchLen(l, k) > 0 {
        UrlMatchesDoNotNest(l, i, k);
      }
    }
  }

  /** A link starting at `k` at or after `i` is counted by the scan from
      `i`. */
  lemma {:induction false} UrlCountSeesMatch(l: string, i: nat, k: nat)
    requires i <= k && UrlMatchLen(l, k) > 0
    ensures UrlCountFrom(l, i) >= 1 + UrlCountFrom(l, k + UrlMatchLen(l, k))
    decreases k - i
  {
    if i < k {
      var n := UrlMatchLen(l, i);
      if n > 0 {
        UrlMatchesDoNotNest(l, i, k);
        if i + n < k { UrlCountSeesMatch(l, i + n, k); }
      } else {
        UrlCountSeesMatch(l, i + 1, k);
      }
    }
  }

  /** Links starting at increasing indices at or after `i` are all counted
      by the scan from `i`. */
  lemma {:induction false} UrlCountSeesAll(l: string, i: nat, ks: seq<nat>)
    requires forall m | 0 <= m < |ks| :: i <= ks[m] && UrlMatchLen(l, ks[m]) > 0
    requires forall a, b | 0 <= a < b < |ks| :: ks[a] < ks[b]
    ensures UrlCountFrom(l, i) >= |ks|
    decreases |ks|
  {
    if ks != [] {
      var k := ks[0];
      var end := k + UrlMatchLen(l, k);
      UrlCountSeesMatch(l, i, k);
      var rest := ks[1..];
      forall m | 0 <= m < |rest|
        ensures end <= rest[m] && UrlMatchLen(l, rest[m]) > 0
      {
        assert rest[m] == ks[m + 1];
        UrlMatchesDoNotNest(l, k, ks[m + 1]);
      }
      assert forall a, b | 0 <= a < b < |rest| :: rest[a] < rest[b] by {
        forall a, b | 0 <= a < b < |rest| ensures rest[a] < rest[b] {
          assert rest[a] == ks[a + 1] && rest[b] == ks[b + 1];
        }
      }
      UrlCountSeesAll(l, end, rest);
    }
  }

  /** The scan from the start counts three separate links. */
  lemma ThreeLinksCounted(l: string, k1: nat, k2: nat, k3: nat)
    requires k1 < k2 < k3
    requires UrlMatchLen(l, k1) > 0 && UrlMatchLen(l, k2) > 0 && UrlMatchLen(l, k3) > 0
    ensures UrlCountFrom(l, 0) >= 3
  {
    UrlCountSeesAll(l, 0, [k1, k2, k3]);
  }

  /** Three links anywhere in the message make it spam, whatever else it
      says. */
  lemma ThreeLinksAreSpam(message: string, k1: nat, k2: nat, k3: nat)
    requires k1 < k2 < k3
    requires var l := LowerAsciiString(message);
      UrlMatchLen(l, k1) > 0 && UrlMatchLen(l, k2) > 0 && UrlMatchLen(l, k3) > 0
    ensures UrlCount(message) > MaxLinksInMessage && IsSpam(message)
  {
    ThreeLinksCounted(LowerAsciiString(message), k1, k2, k3);
  }

  /** The characters that `\b` treats as word characters. */
  predicate IsWordChar(c: char) {
    'a' <= c <= 'z' || 'A' <= c <= 'Z' || '0' <= c <= '9' || c == '_'
  }

  /** `\bw\b` matches at index `k`. */
  predicate WordAt(l: string, w: string, k: nat) {
    && OccursAt(l, w, k)
    && (k == 0 || !IsWordChar(l[k - 1]))
    && (k + |w| == |l| || !IsWordChar(l[k + |w|]))
  }

  /** One alternative of `SUSPICIOUS_REGEX` matches at index `k` of the
      lower-cased message. */
  predicate SuspiciousAt(l: string, k: nat) {
    || OccursAt(l, "<script", k) || OccursAt(l, "<iframe", k)
    || OccursAt(l, "[url]", k) || OccursAt(l, "[link]", k) || OccursAt(l, "href=", k)
    || WordAt(l, "viagra", k) || WordAt(l, "casino", k)
  }

  /** `SUSPICIOUS_REGEX.test(message)`. */
  predicate IsSuspicious(message: string) {
    var l := LowerAsciiString(message);
    exists k | 0 <= k < |l| :: SuspiciousAt(l, k)
  }

  /** The spam test: spam exactly when links start at more than two
      indices of the message, or a suspicious pattern occurs. */
  function IsSpam(message: string): (spam: bool)
    ensures spam <==>
      |LinkStarts(LowerAsciiString(message), 0)| > MaxLinksInMessage || IsSuspicious(message)
  {
    UrlCount(message) > MaxLinksInMessage || IsSuspicious(message)
  }

  /** A `<script` tag in any letter case makes the message spam. */
  lemma ScriptTagIsSpam(message: string, k: nat)
    requires OccursAt(LowerAsciiString(message), "<script", k)
    ensures IsSpam(message)
  {
    assert SuspiciousAt(LowerAsciiString(message), k);
  }

  // ---------------------------------------------------------------------
  // E-mail shape

  /** Apart from the `@` at `at`, no character is `@` or whitespace. */
  predicate EmailCharsOk(s: string, at: nat) {
    forall k | 0 <= k < |s| && k != at :: s[k] != '@' && !IsSpace(s[k])
  }

  /** `EMAIL_REGEX.test(s)` for `^[^\s@]+@[^\s@]+\.[^\s@]+$`: a non-empty
      local part, one `@`, and a domain with a `.` that has a character on
      each side; no whitespace anywhere. */
  function EmailShaped(s: string): (shaped: bool)
    ensures shaped ==> exists at | 0 < at < |s| - 1 ::
      s[at] == '@' && forall k | 0 <= k < |s| && k != at :: s[k] != '@'
    ensures shaped ==> forall k | 0 <= k < |s| :: !IsSpace(s[k])
  {
    var shaped := exists at: nat, dot: nat | 0 < at && at + 1 < dot && dot + 1 < |s| ::
      s[at] == '@' && s[dot] == '.' && EmailCharsOk(s, at);
    if shaped then
      var at: nat, dot: nat :| 0 < at && at + 1 < dot && dot + 1 < |s| &&
        s[at] == '@' && s[dot] == '.' && EmailCharsOk(s, at);
      assert !IsSpace(s[at]);
      true
    else false
  }

  lemma EmailShapeExamples()
    ensures EmailShaped("jane@example.com")
    ensures !EmailShaped("jane@example")
    ensures !EmailShaped("@example.com")
    ensures !EmailShaped("jane doe@example.com")
  {
    var s := "jane@example.com";
    assert s[4] == '@' && s[12] == '.' && EmailCharsOk(s, 4);
    var t := "jane doe@example.com";
    assert IsSpace(t[4]);
  }

  // ---------------------------------------------------------------------
  // The decision chain

  /** The field rules after the rate limit, in order; the first one broken
      decides the reply. */
  function FieldFailure(name: Trimmed, email: Trimmed, message: Trimmed): (r: Option<Reply>)
    ensures r == None <==>
      && name.Defined? && email.Defined? && message.Defined?
      && NameMinLength <= |name.text| <= NameMaxLength
      && MessageMinLength <= |message.text| <= MessageMaxLength
      && !IsSpam(message.text) && EmailShaped(email.text)
    ensures r.Some? ==> r.value.Rejected? && r.value.status == 400
    ensures !Truthy(name) || !Truthy(email) || !Truthy(message) ==>
      r == Some(Rejected(400, ErrorAllFieldsRequired))
    ensures (Truthy(name) && Truthy(email) && Truthy(message)
      && !(NameMinLength <= |name.text| <= NameMaxLength)) ==>
      r == Some(Rejected(400, ErrorInvalidNameLength))
    ensures (Truthy(name) && Truthy(email) && Truthy(message)
      && NameMinLength <= |name.text| <= NameMaxLength
      && !(MessageMinLength <= |message.text| <= MessageMaxLength)) ==>
      r == Some(Rejected(400, ErrorInvalidMessageLength))
    ensures (Truthy(name) && Truthy(email) && Truthy(message)
      && NameMinLength <= |name.text| <= NameMaxLength
      && MessageMinLength <= |message.text| <= MessageMaxLength
      && IsSpam(message.text)) ==>
      r == Some(Rejected(400, ErrorSpamBlocked))
    ensures (Truthy(name) && Truthy(email) && Truthy(message)
      && NameMinLength <= |name.text| <= NameMaxLength
      && MessageMinLength <= |message.text| <= MessageMaxLength
      && !IsSpam(message.text) && !EmailShaped(email.text)) ==>
      r == Some(Rejected(400, ErrorInvalidEmail))
  {
    if !Truthy(name) || !Truthy(email) || !Truthy(message) then
      Some(Rejected(400, ErrorAllFieldsRequired))
    else if |name.text| < NameMinLength || |name.text| > NameMaxLength then
      Some(Rejected(400, ErrorInvalidNameLength))
    else if |message.text| < MessageMinLength || |message.text| > MessageMaxLength then
      Some(Rejected(400, ErrorInvalidMessageLength))
    else if IsSpam(message.text) then
      Some(Rejected(400, ErrorSpamBlocked))
    else if !EmailShaped(email.text) then
      Some(Rejected(400, ErrorInvalidEmail))
    else None
  }

  /** `process.env.KEY?.trim()`, with absence read as empty. */
  function EnvValue(v: Option<string>): string {
    if v.Some? then Trim(v.value) else ""
  }

  /** The required mail settings, in the order the handler checks them. */
  const RequiredSettings := ["MAILJET_API_KEY", "MAILJET_API_SECRET", "MAILJET_FROM_EMAIL", "CONTACT_TO"]

  /** The position of a required setting in the check order. */
  function CheckRank(key: string): nat {
    if key == RequiredSettings[0] then 0
    else if key == RequiredSettings[1] then 1
    else if key == RequiredSettings[2] then 2
    else 3
  }

  /** `missingEnvKeys`: the required settings that are absent or blank
      after trimming; none exactly when all four are set. */
  function MissingEnvKeys(env: MailEnv): (keys: seq<string>)
    ensures forall key | key in keys :: key in RequiredSettings
    ensures keys == [] <==>
      EnvValue(env.apiKey) != [] && EnvValue(env.apiSecret) != [] &&
      EnvValue(env.fromEmail) != [] && EnvValue(env.contactTo) != []
  {
    (if EnvValue(env.apiKey) == [] then ["MAILJET_API_KEY"] else []) +
    (if EnvValue(env.apiSecret) == [] then ["MAILJET_API_SECRET"] else []) +
    (if EnvValue(env.fromEmail) == [] then ["MAILJET_FROM_EMAIL"] else []) +
    (if EnvValue(env.contactTo) == [] then ["CONTACT_TO"] else [])
  }

  /** Each required setting is listed exactly when it is absent or blank
      after trimming. */
  lemma MissingEnvKeysNamesBlank(env: MailEnv)
    ensures var keys := MissingEnvKeys(env);
      && ("MAILJET_API_KEY" in keys <==> EnvValue(env.apiKey) == [])
      && ("MAILJET_API_SECRET" in keys <==> EnvValue(env.apiSecret) == [])
      && ("MAILJET_FROM_EMAIL" in keys <==> EnvValue(env.fromEmail) == [])
      && ("CONTACT_TO" in keys <==> EnvValue(env.contactTo) == [])
  {
    var k0, k1, k2, k3 := RequiredSettings[0], RequiredSettings[1], RequiredSettings[2], RequiredSettings[3];
    assert k0 != k1 && k0 != k2 && k0 != k3 && k1 != k2 && k1 != k3 && k2 != k3 by {
      assert k1[8] != k2[8];
    }
    var c0 := if EnvValue(env.apiKey) == [] then [k0] else [];
    var c1 := if EnvValue(env.apiSecret) == [] then [k1] else [];
    var c2 := if EnvValue(env.fromEmail) == [] then [k2] else [];
    var c3 := if EnvValue(env.contactTo) == [] then [k3] else [];
    var keys := MissingEnvKeys(env);
    assert keys == c0 + c1 + c2 + c3;
    assert forall key :: key in keys <==> key in c0 || key in c1 || key in c2 || key in c3;
  }

  /** The list follows the order of the checks: no key appears twice, and
      `CONTACT_TO`, when listed, comes last. */
  lemma MissingEnvKeysInCheckOrder(env: MailEnv)
    ensures RanksIncrease(MissingEnvKeys(env))
    ensures EnvValue(env.contactTo) == [] ==> MissingEnvKeys(env)[|MissingEnvKeys(env)| - 1] == "CONTACT_TO"
  {
    var k0, k1, k2, k3 := RequiredSettings[0], RequiredSettings[1], RequiredSettings[2], RequiredSettings[3];
    assert CheckRank(k0) == 0 && CheckRank(k1) == 1 && CheckRank(k2) == 2 && CheckRank(k3) == 3 by {
      assert k1[8] != k2[8];
    }
    var c0 := if EnvValue(env.apiKey) == [] then [k0] else [];
    var c1 := if EnvValue(env.apiSecret) == [] then [k1] else [];
    var c2 := if EnvValue(env.fromEmail) == [] then [k2] else [];
    var c3 := if EnvValue(env.contactTo) == [] then [k3] else [];
    assert MissingEnvKeys(env) == c0 + c1 + c2 + c3;
    RanksIncreaseAppend(c0, c1, 1);
    RanksIncreaseAppend(c0 + c1, c2, 2);
    RanksIncreaseAppend(c0 + c1 + c2, c3, 3);
  }

  /** Keys in strictly increasing check order. */
  predicate RanksIncrease(keys: seq<string>) {
    forall a, b | 0 <= a < b < |keys| :: CheckRank(keys[a]) < CheckRank(keys[b])
  }

  /** Appending at most one key of rank `n` after keys of lower rank keeps
      the order. */
  lemma RanksIncreaseAppend(keys: seq<string>, next: seq<string>, n: nat)
    requires RanksIncrease(keys) && forall key | key in keys :: CheckRank(key) < n
    requires |next| <= 1 && forall key | key in next :: CheckRank(key) == n
    ensures RanksIncrease(keys + next) && forall key | key in keys + next :: CheckRank(key) <= n
  {
    var r := keys + next;
    forall a, b | 0 <= a < b < |r|
      ensures CheckRank(r[a]) < CheckRank(r[b])
    {
      if b < |keys| {
        assert r[a] == keys[a] && r[b] == keys[b];
      } else {
        assert r[a] == keys[a] && r[a] in keys && r[b] in next;
      }
    }
  }

  /** The 500 reply: the configuration message, then every missing
      setting by name. */
  function MissingConfigReply(missing: seq<string>): (r: Reply)
    ensures r.Rejected? && r.status == 500
    ensures OccursAt(r.error, ErrorMissingMailConfig, 0)
    ensures forall key | key in missing :: Includes(r.error, key)
  {
    var head := ErrorMissingMailConfig + " Missing: ";
    var error := head + Join(missing, ", ");
    assert error[..|ErrorMissingMailConfig|] == ErrorMissingMailConfig;
    assert forall key | key in missing :: Includes(error, key) by {
      forall key | key in missing
        ensures Includes(error, key)
      {
        var i :| 0 <= i < |missing| && missing[i] == key;
        JoinHasPart(missing, ", ", i);
        var k: nat :| k + |key| <= |Join(missing, ", ")| && OccursAt(Join(missing, ", "), key, k);
        OccursAtConcat(head, Join(missing, ", "), key, k);
        assert OccursAt(error, key, |head| + k);
      }
    }
    Rejected(500, error)
  }

  /** The message built for a submission that passed every check: the
      reply-to is the submitter's address, the subject names the submitter,
      a sender name is always set, the configured addresses are non-empty
      once the configuration is complete, and the HTML fragments cannot
      inject markup yet decode back to what was submitted. */
  function ComposeMail(name: string, email: string, message: string, env: MailEnv): (mail: Mail)
    ensures mail.replyTo == email && mail.subject == SubjectPrefix + " | " + name
    ensures mail.fromName != []
    ensures MissingEnvKeys(env) == [] ==> mail.fromEmail != [] && mail.to != []
    ensures Inert(mail.htmlName) && Inert(mail.htmlEmail) && OnlyLineBreakTags(mail.htmlMessage)
    ensures Unescape(mail.htmlName) == name && Unescape(mail.htmlEmail) == email
    ensures mail.fromName == if EnvValue(env.fromName) != [] then EnvValue(env.fromName) else DefaultFromName
    ensures mail.fromEmail == EnvValue(env.fromEmail) && mail.to == EnvValue(env.contactTo)
    ensures mail.htmlMessage == ToHtmlParagraph(message)
  {
    var fromName := if EnvValue(env.fromName) != [] then EnvValue(env.fromName) else DefaultFromName;
    var head := "Name: " + name + "\nEmail: " + email + "\n";
    var tail := "\n\nMessage:\n" + message;
    Mail(
      EnvValue(env.fromEmail), fromName, EnvValue(env.contactTo), email,
      SubjectPrefix + " | " + name, head + NoReplyNotice + email + tail,
      EscapeHtml(name), EscapeHtml(email), ToHtmlParagraph(message))
  }

  /** The text part opens with the sender's name and address and closes
      with the message itself. */
  lemma ComposeMailTextPart(name: string, email: string, message: string, env: MailEnv)
    ensures var text := ComposeMail(name, email, message, env).textPart;
      && OccursAt(text, "Name: " + name + "\nEmail: " + email + "\n", 0)
      && EndsWith(text, "\n\nMessage:\n" + message)
  {
    var head := "Name: " + name + "\nEmail: " + email + "\n";
    var tail := "\n\nMessage:\n" + message;
    FramedBy(head, NoReplyNotice, email, tail);
  }

  /** The request gets past the bot, body, honeypot and fill-time checks, so
      it reaches the rate limiter. */
  predicate ReachesRateLimit(req: Request, now: int) {
    && !req.isBot && req.body.Some?
    && var body := req.body.value;
    && !TrimField(body.name).TypeError? && !TrimField(body.email).TypeError?
    && !TrimField(body.message).TypeError? && !TrimField(body.company).TypeError?
    && !Truthy(TrimField(body.company))
    && body.formStartedAt.Num? && now - body.formStartedAt.number >= MinSubmitDelayMs
  }

  /** `POST(request)` with `Date.now()` = `now`, the environment `env`, the
      limiter's ledger before the call, and `delivered` standing for the mail
      provider's answer (false: the fetch threw or replied with an error
      status). Every exception inside the handler becomes the generic 500. */
  function Post(req: Request, now: int, env: MailEnv, ledger: Ledger, delivered: bool): (out: Outcome)
    ensures out.ledger ==
      if ReachesRateLimit(req, now) then LimitStep(ledger, ClientIp(req.forwardedFor, req.realIp), now).1
      else ledger
    ensures out.sent.Some? <==>
      && ReachesRateLimit(req, now)
      && !LimitStep(ledger, ClientIp(req.forwardedFor, req.realIp), now).0
      && FieldFailure(TrimField(req.body.value.name), TrimField(req.body.value.email),
                      TrimField(req.body.value.message)) == None
      && MissingEnvKeys(env) == []
  {
    if req.isBot then Outcome(Rejected(403, ErrorBotBlocked), None, ledger)
    else if req.body.None? then Outcome(Rejected(500, ErrorSendFailure), None, ledger)
    else
      var body := req.body.value;
      var name, email := TrimField(body.name), TrimField(body.email);
      var message, company := TrimField(body.message), TrimField(body.company);
      if name.TypeError? || email.TypeError? || message.TypeError? || company.TypeError? then
        Outcome(Rejected(500, ErrorSendFailure), None, ledger)
      else if Truthy(company) then Outcome(Accepted, None, ledger)
      else if !body.formStartedAt.Num? || now - body.formStartedAt.number < MinSubmitDelayMs then
        Outcome(Rejected(400, ErrorSubmissionValidation), None, ledger)
      else
        var (limited, after) := LimitStep(ledger, ClientIp(req.forwardedFor, req.realIp), now);
        if limited then Outcome(Rejected(429, ErrorTooManySubmissions), None, after)
        else PastRateLimit(name, email, message, env, after, delivered)
  }

  /** The rest of the chain once the limiter has admitted the request and
      left the ledger `after`: field rules, configuration, the send. */
  function PastRateLimit(name: Trimmed, email: Trimmed, message: Trimmed, env: MailEnv,
                         after: Ledger, delivered: bool): (out: Outcome)
    ensures out.ledger == after
    ensures FieldFailure(name, email, message).Some? ==>
      out == Outcome(FieldFailure(name, email, message).value, None, after)
    ensures out.sent.Some? <==> FieldFailure(name, email, message) == None && MissingEnvKeys(env) == []
    ensures out.sent.Some? ==>
      out.sent.value == ComposeMail(name.text, email.text, message.text, env) &&
      out.reply == if delivered then Accepted else Rejected(500, ErrorSendFailure)
    ensures out.sent.None? && FieldFailure(name, email, message) == None ==>
      out.reply == MissingConfigReply(MissingEnvKeys(env))
  {
    match FieldFailure(name, email, message)
    case Some(reply) => Outcome(reply, None, after)
    case None =>
      assert name.Defined? && email.Defined? && message.Defined?;
      var missing := MissingEnvKeys(env);
      if missing != [] then Outcome(MissingConfigReply(missing), None, after)
      else
        var mail := ComposeMail(name.text, email.text, message.text, env);
        Outcome(if delivered then Accepted else Rejected(500, ErrorSendFailure), Some(mail), after)
  }

  /** A bot is turned away first: 403, no mail, no rate-limit slot used. */
  lemma BotIsBlockedFirst(req: Request, now: int, env: MailEnv, ledger: Ledger, delivered: bool)
    requires req.isBot
    ensures Post(req, now, env, ledger, delivered) == Outcome(Rejected(403, ErrorBotBlocked), None, ledger)
  {
  }

  /** A body that cannot be read, or a field that is present but not a
      string (its `trim` throws), ends in the generic 500 reply: nothing is
      sent and the ledger is untouched. */
  lemma UnreadableBodyFails(req: Request, now: int, env: MailEnv, ledger: Ledger, delivered: bool)
    requires !req.isBot
    requires req.body.None? ||
      var b := req.body.value;
      || b.name.Num? || b.name.OtherValue? || b.email.Num? || b.email.OtherValue?
      || b.message.Num? || b.message.OtherValue? || b.company.Num? || b.company.OtherValue?
    ensures Post(req, now, env, ledger, delivered) == Outcome(Rejected(500, ErrorSendFailure), None, ledger)
  {
  }

  /** A filled honeypot gets the same `{ ok: true }` as a real submission,
      but no mail is sent and the ledger is untouched, whenever each of the
      other fields is a string or absent. */
  lemma HoneypotAcceptsSilently(req: Request, now: int, env: MailEnv, ledger: Ledger, delivered: bool)
    requires !req.isBot && req.body.Some?
    requires var b := req.body.value;
      && !TrimField(b.name).TypeError? && !TrimField(b.email).TypeError?
      && !TrimField(b.message).TypeError?
      && b.company.Str? && Trim(b.company.text) != []
    ensures Post(req, now, env, ledger, delivered) == Outcome(Accepted, None, ledger)
  {
  }

  /** A form sent sooner than the minimum fill delay (or without a numeric
      start time) is refused with 400 before the rate limiter runs,
      whenever each field is a string or absent. */
  lemma TooFastIsRejected(req: Request, now: int, env: MailEnv, ledger: Ledger, delivered: bool)
    requires !req.isBot && req.body.Some?
    requires var b := req.body.value;
      && !TrimField(b.name).TypeError? && !TrimField(b.email).TypeError?
      && !TrimField(b.message).TypeError? && !TrimField(b.company).TypeError?
      && !Truthy(TrimField(b.company))
      && (!b.formStartedAt.Num? || now - b.formStartedAt.number < MinSubmitDelayMs)
    ensures Post(req, now, env, ledger, delivered) ==
      Outcome(Rejected(400, ErrorSubmissionValidation), None, ledger)
  {
  }

  /** An admitted request whose name and message have valid lengths but
      whose message is spam gets the spam rejection, and nothing is sent,
      whatever the e-mail and the configuration. */
  lemma SpamIsBlocked(req: Request, now: int, env: MailEnv, ledger: Ledger, delivered: bool)
    requires ReachesRateLimit(req, now)
    requires !LimitStep(ledger, ClientIp(req.forwardedFor, req.realIp), now).0
    requires var b := req.body.value;
      && b.name.Str? && b.email.Str? && b.message.Str? && Trim(b.email.text) != []
      && NameMinLength <= |Trim(b.name.text)| <= NameMaxLength
      && MessageMinLength <= |Trim(b.message.text)| <= MessageMaxLength
      && IsSpam(Trim(b.message.text))
    ensures Post(req, now, env, ledger, delivered).reply == Rejected(400, ErrorSpamBlocked)
    ensures Post(req, now, env, ledger, delivered).sent == None
  {
    var b := req.body.value;
    var after := LimitStep(ledger, ClientIp(req.forwardedFor, req.realIp), now).1;
    assert Post(req, now, env, ledger, delivered) ==
      PastRateLimit(TrimField(b.name), TrimField(b.email), TrimField(b.message), env, after, delivered);
  }

  /** A valid submission whose message holds three links is blocked as
      spam. */
  lemma ThreeLinksAreBlocked(req: Request, now: int, env: MailEnv, ledger: Ledger, delivered: bool,
                             k1: nat, k2: nat, k3: nat)
    requires ReachesRateLimit(req, now)
    requires !LimitStep(ledger, ClientIp(req.forwardedFor, req.realIp), now).0
    requires var b := req.body.value;
      && b.name.Str? && b.email.Str? && b.message.Str? && Trim(b.email.text) != []
      && NameMinLength <= |Trim(b.name.text)| <= NameMaxLength
      && MessageMinLength <= |Trim(b.message.text)| <= MessageMaxLength
    requires k1 < k2 < k3
    requires var l := LowerAsciiString(Trim(req.body.value.message.text));
      UrlMatchLen(l, k1) > 0 && UrlMatchLen(l, k2) > 0 && UrlMatchLen(l, k3) > 0
    ensures Post(req, now, env, ledger, delivered) ==
      Outcome(Rejected(400, ErrorSpamBlocked), None, LimitStep(ledger, ClientIp(req.forwardedFor, req.realIp), now).1)
  {
    ThreeLinksAreSpam(Trim(req.body.value.message.text), k1, k2, k3);
    SpamIsBlocked(req, now, env, ledger, delivered);
  }

  /** A valid submission whose message holds `<script`, in any letter case,
      is blocked as spam. */
  lemma ScriptTagIsBlocked(req: Request, now: int, env: MailEnv, ledger: Ledger, delivered: bool, k: nat)
    requires ReachesRateLimit(req, now)
    requires !LimitStep(ledger, ClientIp(req.forwardedFor, req.realIp), now).0
    requires var b := req.body.value;
      && b.name.Str? && b.email.Str? && b.message.Str? && Trim(b.email.text) != []
      && NameMinLength <= |Trim(b.name.text)| <= NameMaxLength
      && MessageMinLength <= |Trim(b.message.text)| <= MessageMaxLength
    requires OccursAt(LowerAsciiString(Trim(req.body.value.message.text)), "<script", k)
    ensures Post(req, now, env, ledger, delivered) ==
      Outcome(Rejected(400, ErrorSpamBlocked), None, LimitStep(ledger, ClientIp(req.forwardedFor, req.realIp), now).1)
  {
    ScriptTagIsSpam(Trim(req.body.value.message.text), k);
    SpamIsBlocked(req, now, env, ledger, delivered);
  }

  /** An admitted request that passes every field rule, with the mail
      settings complete, sends the composed message; when the provider call
      fails (it throws or answers with an error status) the reply is the
      generic 500 all the same. */
  lemma DeliveryFailureFails(req: Request, now: int, env: MailEnv, ledger: Ledger)
    requires ReachesRateLimit(req, now)
    requires !LimitStep(ledger, ClientIp(req.forwardedFor, req.realIp), now).0
    requires var b := req.body.value;
      FieldFailure(TrimField(b.name), TrimField(b.email), TrimField(b.message)) == None
    requires MissingEnvKeys(env) == []
    ensures var b := req.body.value;
      Post(req, now, env, ledger, false) ==
        Outcome(Rejected(500, ErrorSendFailure),
                Some(ComposeMail(TrimField(b.name).text, TrimField(b.email).text, TrimField(b.message).text, env)),
                LimitStep(ledger, ClientIp(req.forwardedFor, req.realIp), now).1)
  {
    var b := req.body.value;
    var after := LimitStep(ledger, ClientIp(req.forwardedFor, req.realIp), now).1;
    assert Post(req, now, env, ledger, false) ==
      PastRateLimit(TrimField(b.name), TrimField(b.email), TrimField(b.message), env, after, false);
  }

  /** Over quota means 429 and no mail, before any field rule is looked at. */
  lemma OverQuotaIsRefused(req: Request, now: int, env: MailEnv, ledger: Ledger, delivered: bool)
    requires ReachesRateLimit(req, now)
    requires |Recent(Stored(ledger, ClientIp(req.forwardedFor, req.realIp)), now)| >= RateLimitMaxSubmissions
    ensures Post(req, now, env, ledger, delivered).reply == Rejected(429, ErrorTooManySubmissions)
    ensures Post(req, now, env, ledger, delivered).sent == None
  {
  }

  /** Every request keeps every client within the quota. */
  lemma PostKeepsLedgerBounded(req: Request, now: int, env: MailEnv, ledger: Ledger, delivered: bool)
    requires Bounded(ledger)
    ensures Bounded(Post(req, now, env, ledger, delivered).ledger)
  {
    LimitStepBounded(ledger, ClientIp(req.forwardedFor, req.realIp), now);
  }

  /** A message that is sent comes from a submission that meets every field
      rule, and the reply is `{ ok: true }` exactly when the provider accepted
      it. */
  lemma SentMailMeetsRules(req: Request, now: int, env: MailEnv, ledger: Ledger, delivered: bool)
    requires Post(req, now, env, ledger, delivered).sent.Some?
    ensures var b := req.body.value;
      var name, email, message := Trim(b.name.text), Trim(b.email.text), Trim(b.message.text);
      var out := Post(req, now, env, ledger, delivered);
      && b.name.Str? && b.email.Str? && b.message.Str?
      && NameMinLength <= |name| <= NameMaxLength
      && MessageMinLength <= |message| <= MessageMaxLength
      && !IsSpam(message) && EmailShaped(email)
      && MissingEnvKeys(env) == []
      && out.sent.value == ComposeMail(name, email, message, env)
      && (out.reply == Accepted <==> delivered)
  {
    var b := req.body.value;
    var name, email, message := TrimField(b.name), TrimField(b.email), TrimField(b.message);
    var step := LimitStep(ledger, ClientIp(req.forwardedFor, req.realIp), now);
    assert ReachesRateLimit(req, now) && !step.0;
    assert Post(req, now, env, ledger, delivered) == PastRateLimit(name, email, message, env, step.1, delivered);
    assert FieldFailure(name, email, message) == None;
    assert b.name.Str? && b.email.Str? && b.message.Str?;
  }

  /** With the submission valid but a setting missing, the reply is 500 and
      names exactly the missing settings, in order; nothing is sent. */
  lemma MissingConfigNeverSends(req: Request, now: int, env: MailEnv, ledger: Ledger, delivered: bool)
    requires ReachesRateLimit(req, now)
    requires !LimitStep(ledger, ClientIp(req.forwardedFor, req.realIp), now).0
    requires FieldFailure(TrimField(req.body.value.name), TrimField(req.body.value.email),
                          TrimField(req.body.value.message)) == None
    requires MissingEnvKeys(env) != []
    ensures Post(req, now, env, ledger, delivered).sent == None
    ensures Post(req, now, env, ledger, delivered).reply == MissingConfigReply(MissingEnvKeys(env))
    ensures EnvValue(env.contactTo) == [] ==> MissingEnvKeys(env)[|MissingEnvKeys(env)| - 1] == "CONTACT_TO"
  {
    MissingEnvKeysInCheckOrder(env);
  }

  /** The handler's list of missing settings, built by appending one key per
      failed check. */
  method CollectMissingEnvKeys(env: MailEnv) returns (missing: seq<string>)
    ensures missing == MissingEnvKeys(env)
  {
    missing := [];
    if EnvValue(env.apiKey) == [] { missing := missing + ["MAILJET_API_KEY"]; }
    if EnvValue(env.apiSecret) == [] { missing := missing + ["MAILJET_API_SECRET"]; }
    if EnvValue(env.fromEmail) == [] { missing := missing + ["MAILJET_FROM_EMAIL"]; }
    if EnvValue(env.contactTo) == [] { missing := missing + ["CONTACT_TO"]; }
  }

  /** The handler as the endpoint runs it: a step-by-step chain of early
      returns over the process-wide limiter, which it updates in place. */
  method HandlePost(limiter: RateLimiter, req: Request, now: int, env: MailEnv, delivered: bool)
    returns (reply: Reply, sent: Option<Mail>)
    modifies limiter
    ensures Outcome(reply, sent, limiter.submissions) ==
      Post(req, now, env, old(limiter.submissions), delivered)
    ensures old(limiter.Valid()) ==> limiter.Valid()
  {
    if req.isBot {
      return Rejected(403, ErrorBotBlocked), None;
    }
    if req.body.None? {
      return Rejected(500, ErrorSendFailure), None;
    }
    var body := req.body.value;
    var name := TrimField(body.name);
    var email := TrimField(body.email);
    var message := TrimField(body.message);
    var company := TrimField(body.company);
    if name.TypeError? || email.TypeError? || message.TypeError? || company.TypeError? {
      return Rejected(500, ErrorSendFailure), None;
    }
    if Truthy(company) {
      return Accepted, None;
    }
    if !body.formStartedAt.Num? || now - body.formStartedAt.number < MinSubmitDelayMs {
      return Rejected(400, ErrorSubmissionValidation), None;
    }
    var clientIp := ClientIp(req.forwardedFor, req.realIp);
    ghost var before := limiter.submissions;
    var limited := limiter.TooManyRecentSubmissions(clientIp, now);
    assert Post(req, now, env, before, delivered) ==
      if limited then Outcome(Rejected(429, ErrorTooManySubmissions), None, limiter.submissions)
      else PastRateLimit(name, email, message, env, limiter.submissions, delivered);
    if limited {
      return Rejected(429, ErrorTooManySubmissions), None;
    }
    var failure := FieldFailure(name, email, message);
    if failure.Some? {
      return failure.value, None;
    }
    var missing := CollectMissingEnvKeys(env);
    if |missing| > 0 {
      return MissingConfigReply(missing), None;
    }
    var mail := ComposeMail(name.text, email.text, message.text, env);
    if !delivered {
      return Rejected(500, ErrorSendFailure), Some(mail);
    }
    return Accepted, Some(mail);
  }
}
