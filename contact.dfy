/**
 * The contact page: form validation, the email pattern, the `aria-invalid`
 * flags set after a failed submission, the in-memory list of submissions
 * and the choice of what the submissions area shows.
 */
module Contact {
  import opened Text
  import opened Escape

  datatype FormValues = FormValues(name: string, email: string, subject: string, message: string)

  /** The errors `validate` can report, in the order it checks for them. */
  datatype FormError = NameRequired | EmailRequired | EmailInvalid | MessageTooShort

  /** The text the page shows for each error. */
  function Shown(e: FormError): string {
    match e
    case NameRequired => "Le nom est requis."
    case EmailRequired => "L'email est requis."
    case EmailInvalid => "Le format de l'email est invalide."
    case MessageTooShort => "Le message est trop court."
  }

  /** Position of an error in check order. */
  function Rank(e: FormError): nat {
    match e
    case NameRequired => 0
    case EmailRequired => 1
    case EmailInvalid => 2
    case MessageTooShort => 3
  }

  // ------------------------------------------------------ the email pattern

  /** `[^\s@]`. */
  predicate PatternChar(c: char) {
    !IsWhitespace(c) && c != '@'
  }

  predicate AllPatternChars(t: string) {
    forall i :: 0 <= i < |t| ==> PatternChar(t[i])
  }

  /** `[^\s@]+`. */
  predicate PatternRun(t: string) {
    |t| > 0 && AllPatternChars(t)
  }

  /** The language of `^[^\s@]+@[^\s@]+\.[^\s@]+$`, split at its `@` and its `.`. */
  ghost predicate MatchesEmailPattern(s: string) {
    exists i, j :: EmailSplit(s, i, j)
  }

  /** `s` matches the pattern with its `@` at `i` and the `.` before the last run at `j`. */
  predicate EmailSplit(s: string, i: int, j: int) {
    && 0 <= i < j < |s| && s[i] == '@' && s[j] == '.'
    && PatternRun(s[..i]) && PatternRun(s[i + 1..j]) && PatternRun(s[j + 1..])
  }

  /** Index of the first `c` in `s`, or `|s|` when there is none. */
  function IndexOf(s: string, c: char): (k: nat)
    ensures k <= |s|
    ensures k < |s| ==> s[k] == c
    ensures forall i :: 0 <= i < k ==> s[i] != c
  {
    if s == [] then 0
    else if s[0] == c then 0
    else 1 + IndexOf(s[1..], c)
  }

  /** A direct test: one `@` after a non-empty start, no white space, and a `.` strictly inside the domain. */
  predicate IsEmailShaped(s: string) {
    var at := IndexOf(s, '@');
    && 0 < at < |s|
    && AllPatternChars(s[..at])
    && AllPatternChars(s[at + 1..])
    && exists k | at + 1 < k < |s| - 1 :: s[k] == '.'
  }

  /** A string the direct test accepts matches the regular expression. */
  lemma EmailShapedMatches(s: string)
    requires IsEmailShaped(s)
    ensures MatchesEmailPattern(s)
  {
    var at := IndexOf(s, '@');
    var k :| at + 1 < k < |s| - 1 && s[k] == '.';
    var domain := s[at + 1..];
    assert s[at + 1..k] == domain[..k - at - 1];
    assert s[k + 1..] == domain[k - at..];
    assert EmailSplit(s, at, k);
  }

  lemma AllPatternCharsAppend(a: string, b: string)
    requires AllPatternChars(a) && AllPatternChars(b)
    ensures AllPatternChars(a + b)
  {
    forall k | 0 <= k < |a + b| ensures PatternChar((a + b)[k]) {
      if k >= |a| { assert (a + b)[k] == b[k - |a|]; }
    }
  }

  /** The first `@` of a string whose run before index `i` has none, and with `@` at `i`, is at `i`. */
  lemma FirstAtSign(s: string, i: nat)
    requires i < |s| && s[i] == '@' && AllPatternChars(s[..i])
    ensures IndexOf(s, '@') == i
  {
  }

  /** A string the regular expression matches passes the direct test. */
  lemma MatchesAreEmailShaped(s: string)
    requires MatchesEmailPattern(s)
    ensures IsEmailShaped(s)
  {
    var i, j :| EmailSplit(s, i, j);
    FirstAtSign(s, i);
    assert AllPatternChars(s[i + 1..]) by {
      assert AllPatternChars(s[j..]) by {
        assert AllPatternChars([s[j]]);
        AllPatternCharsAppend([s[j]], s[j + 1..]);
        assert s[j..] == [s[j]] + s[j + 1..];
      }
      AllPatternCharsAppend(s[i + 1..j], s[j..]);
      assert s[i + 1..] == s[i + 1..j] + s[j..];
    }
    assert i + 1 < j < |s| - 1;
  }

  /** The direct test accepts exactly the strings the regular expression matches. */
  lemma IsEmailShapedMatchesPattern(s: string)
    ensures IsEmailShaped(s) <==> MatchesEmailPattern(s)
  {
    if IsEmailShaped(s) { EmailShapedMatches(s); }
    if MatchesEmailPattern(s) { MatchesAreEmailShaped(s); }
  }

  /** A matching address has exactly one `@` and no white space at all. */
  lemma EmailPatternShape(s: string)
    requires MatchesEmailPattern(s)
    ensures '@' in s
    ensures forall k, m :: 0 <= k < m < |s| && s[k] == '@' ==> s[m] != '@'
    ensures forall k :: 0 <= k < |s| ==> !IsWhitespace(s[k])
  {
    var i, j :| EmailSplit(s, i, j);
    forall k | 0 <= k < |s| && k != i ensures PatternChar(s[k]) {
      if k < i { assert s[k] == s[..i][k]; }
      else if k < j { assert s[k] == s[i + 1..j][k - i - 1]; }
      else if k > j { assert s[k] == s[j + 1..][k - j - 1]; }
    }
  }

  // ------------------------------------------------------------- validation

  /** `!s.trim()`: the field is empty once trimmed. */
  method IsMissing(s: string) returns (missing: bool)
    ensures missing <==> Blank(s)
  {
    TrimEmptyIffBlank(s);
    missing := Trim(s) == [];
  }

  /** The test `/^[^\s@]+@[^\s@]+\.[^\s@]+$/.test(s)`. */
  method TestEmailPattern(s: string) returns (matches: bool)
    ensures matches <==> MatchesEmailPattern(s)
  {
    IsEmailShapedMatchesPattern(s);
    matches := IsEmailShaped(s);
  }

  /** The errors appear in check order, each at most once. */
  predicate InCheckOrder(errors: seq<FormError>) {
    forall i, j :: 0 <= i < j < |errors| ==> Rank(errors[i]) < Rank(errors[j])
  }

  /** The error list for the outcomes of the four checks, in check order. */
  function ErrorsFor(nameBlank: bool, emailBlank: bool, emailShaped: bool, tooShort: bool): seq<FormError> {
    (if nameBlank then [NameRequired] else [])
    + (if emailBlank then [EmailRequired] else if !emailShaped then [EmailInvalid] else [])
    + (if tooShort then [MessageTooShort] else [])
  }

  /** Each error is in the list exactly when its check fails, in check order, at most three. */
  lemma ErrorsForSpec(nameBlank: bool, emailBlank: bool, emailShaped: bool, tooShort: bool)
    ensures var errors := ErrorsFor(nameBlank, emailBlank, emailShaped, tooShort);
            && (NameRequired in errors <==> nameBlank)
            && (EmailRequired in errors <==> emailBlank)
            && (EmailInvalid in errors <==> !emailBlank && !emailShaped)
            && (MessageTooShort in errors <==> tooShort)
            && InCheckOrder(errors)
            && |errors| <= 3
  {
    var a := if nameBlank then [NameRequired] else [];
    var b := if emailBlank then [EmailRequired] else if !emailShaped then [EmailInvalid] else [];
    var c := if tooShort then [MessageTooShort] else [];
    assert ErrorsFor(nameBlank, emailBlank, emailShaped, tooShort) == a + b + c;
  }

  /** `validate`: the errors of a form, each reported at most once, in check order. */
  method Validate(values: FormValues) returns (errors: seq<FormError>)
    ensures NameRequired in errors <==> Blank(values.name)
    ensures EmailRequired in errors <==> Blank(values.email)
    ensures EmailInvalid in errors <==> !Blank(values.email) && !MatchesEmailPattern(values.email)
    ensures !(EmailRequired in errors && EmailInvalid in errors)
    ensures MessageTooShort in errors <==> |Trim(values.message)| + |values.subject| < 2
    ensures InCheckOrder(errors)
    ensures |errors| <= 3
  {
    var nameBlank := IsMissing(values.name);
    var emailBlank := IsMissing(values.email);
    var emailShaped := TestEmailPattern(values.email);
    var tooShort := |Trim(values.message)| + |values.subject| < 2;
    errors := [];
    if nameBlank {
      errors := errors + [NameRequired];
    }
    if emailBlank {
      errors := errors + [EmailRequired];
    } else if !emailShaped {
      errors := errors + [EmailInvalid];
    }
    if tooShort {
      errors := errors + [MessageTooShort];
    }
    assert errors == ErrorsFor(nameBlank, emailBlank, emailShaped, tooShort);
    ErrorsForSpec(nameBlank, emailBlank, emailShaped, tooShort);
  }

  /** What the form must satisfy to be stored. */
  ghost predicate Acceptable(values: FormValues) {
    && !Blank(values.name)
    && !Blank(values.email)
    && MatchesEmailPattern(values.email)
    && |Trim(values.message)| + |values.subject| >= 2
  }

  // --------------------------------------------------------- aria-invalid

  /** The fields whose `aria-invalid` attribute the page sets. */
  const FieldIds := ["name", "email", "message"]

  /** The flag as the page computes it: some lower-cased error text mentions the field id. */
  predicate FlaggedAsWritten(errors: seq<FormError>, id: string) {
    exists e | e in errors :: Contains(Lower(Shown(e)), id) || (Contains(Lower(Shown(e)), "email") && id == "email")
  }

  /** Nothing occurs in `t` that needs a character `t` lacks. */
  lemma AbsentCharRulesOut(t: string, sub: string, k: nat)
    requires k < |sub| && sub[k] !in t
    ensures !Contains(t, sub)
  {
    forall i: nat | i <= |t| ensures !OccursAt(t, sub, i) {
      if i + |sub| <= |t| {
        assert t[i..i + |sub|][k] == t[i + k];
      }
    }
  }

  /** The texts once lower-cased; they are plain ASCII, so ASCII lower-casing is exact for them. */
  lemma LoweredNameRequired()
    ensures Lower(Shown(NameRequired)) == "le nom est requis."
  {
  }

  lemma LoweredEmailRequired()
    ensures Lower(Shown(EmailRequired)) == "l'email est requis."
  {
  }

  lemma LoweredEmailInvalid()
    ensures Lower(Shown(EmailInvalid)) == "le format de l'" + "email" + " est i" + "nvalide."
  {
    var a, b, c, d := "Le format de l'", "email", " est i", "nvalide.";
    assert Shown(EmailInvalid) == a + b + c + d;
    assert Lower(a) == "le format de l'" by { }
    assert Lower(b) == b by { }
    assert Lower(c) == c by { }
    assert Lower(d) == d by { }
    LowerAppend(a + b + c, d);
    LowerAppend(a + b, c);
    LowerAppend(a, b);
  }

  lemma LoweredMessageTooShort()
    ensures Lower(Shown(MessageTooShort)) == "le " + "message" + " est trop court."
  {
    var a, b, c := "Le ", "message", " est trop court.";
    assert Shown(MessageTooShort) == a + b + c;
    assert Lower(a) == "le " by { }
    assert Lower(b) == b by { }
    assert Lower(c) == c by { }
    LowerAppend(a + b, c);
    LowerAppend(a, b);
  }

  lemma NameRequiredMentions()
    ensures !Contains("le nom est requis.", "name")
    ensures !Contains("le nom est requis.", "email")
    ensures !Contains("le nom est requis.", "message")
  {
    var t := "le nom est requis.";
    assert 'a' !in t;
    AbsentCharRulesOut(t, "name", 1);
    AbsentCharRulesOut(t, "email", 2);
    AbsentCharRulesOut(t, "message", 4);
  }

  lemma EmailRequiredMentions()
    ensures !Contains("l'email est requis.", "name")
    ensures Contains("l'email est requis.", "email")
    ensures !Contains("l'email est requis.", "message")
  {
    var t := "l'email est requis.";
    assert 'n' !in t && 'g' !in t;
    AbsentCharRulesOut(t, "name", 0);
    assert t == "l'" + "email" + " est requis.";
    ContainsMiddle("l'", "email", " est requis.");
    AbsentCharRulesOut(t, "message", 5);
  }

  /** `name` does not occur in the lower-cased email-format message, although all four letters do. */
  lemma FormatMessageLacksName()
    ensures !Contains("le format de l'" + "email" + " est i" + "nvalide.", "name")
  {
    var a, b := "le format de l'" + "email" + " est i", "nvalide.";
    var t := a + b;
    assert 'n' !in a && 'n' !in b[1..];
    forall i: nat | i <= |t| ensures !OccursAt(t, "name", i) {
      if i + 4 <= |t| {
        if i < |a| {
          assert t[i] == a[i];
          assert t[i..i + 4][0] != 'n';
        } else if i > |a| {
          assert t[i] == b[1..][i - |a| - 1];
          assert t[i..i + 4][0] != 'n';
        } else {
          assert t[i..i + 4][1] != 'a';
        }
      }
    }
  }

  lemma EmailInvalidMentions()
    ensures !Contains("le format de l'" + "email" + " est i" + "nvalide.", "name")
    ensures Contains("le format de l'" + "email" + " est i" + "nvalide.", "email")
    ensures !Contains("le format de l'" + "email" + " est i" + "nvalide.", "message")
  {
    var t := "le format de l'" + "email" + " est i" + "nvalide.";
    FormatMessageLacksName();
    ContainsMiddle("le format de l'", "email", " est i");
    ContainsExtend("le format de l'" + "email" + " est i", "nvalide.", "email");
    assert 'g' !in t;
    AbsentCharRulesOut(t, "message", 5);
  }

  lemma MessageTooShortMentions()
    ensures !Contains("le " + "message" + " est trop court.", "name")
    ensures !Contains("le " + "message" + " est trop court.", "email")
    ensures Contains("le " + "message" + " est trop court.", "message")
  {
    var t := "le " + "message" + " est trop court.";
    assert 'n' !in t && 'i' !in t;
    AbsentCharRulesOut(t, "name", 0);
    AbsentCharRulesOut(t, "email", 3);
    ContainsMiddle("le ", "message", " est trop court.");
  }

  /**
   * With the page's French messages the heuristic never flags `name`;
   * `email` and `message` are flagged exactly when their errors are present.
   */
  lemma AsWrittenFlags(errors: seq<FormError>)
    ensures !FlaggedAsWritten(errors, "name")
    ensures FlaggedAsWritten(errors, "email") <==> EmailRequired in errors || EmailInvalid in errors
    ensures FlaggedAsWritten(errors, "message") <==> MessageTooShort in errors
  {
    LoweredNameRequired();
    LoweredEmailRequired();
    LoweredEmailInvalid();
    LoweredMessageTooShort();
    NameRequiredMentions();
    EmailRequiredMentions();
    EmailInvalidMentions();
    MessageTooShortMentions();
  }

  /** A blank name is reported but its field is left unflagged. */
  lemma BlankNameGoesUnflagged(errors: seq<FormError>)
    requires NameRequired in errors
    ensures !FlaggedAsWritten(errors, "name")
  {
    AsWrittenFlags(errors);
  }

  /** The field each error is about. */
  function ErrorField(e: FormError): string {
    match e
    case NameRequired => "name"
    case EmailRequired | EmailInvalid => "email"
    case MessageTooShort => "message"
  }

  /** The flag the page means to set: some error concerns the field. */
  predicate Flagged(errors: seq<FormError>, id: string) {
    exists e | e in errors :: ErrorField(e) == id
  }

  /** Each field is flagged exactly when one of its own errors is reported. */
  lemma FlagsFollowErrors(errors: seq<FormError>)
    ensures Flagged(errors, "name") <==> NameRequired in errors
    ensures Flagged(errors, "email") <==> EmailRequired in errors || EmailInvalid in errors
    ensures Flagged(errors, "message") <==> MessageTooShort in errors
  {
    if Flagged(errors, "name") {
      var e :| e in errors && ErrorField(e) == "name";
      assert e == NameRequired;
    }
    if Flagged(errors, "message") {
      var e :| e in errors && ErrorField(e) == "message";
      assert e == MessageTooShort;
    }
  }

  /** A list of errors is empty exactly when none of the four is in it. */
  lemma NothingReported(errors: seq<FormError>)
    ensures errors == [] <==>
              NameRequired !in errors && EmailRequired !in errors
              && EmailInvalid !in errors && MessageTooShort !in errors
  {
    if errors != [] {
      var e := errors[0];
      assert e in errors;
      assert e.NameRequired? || e.EmailRequired? || e.EmailInvalid? || e.MessageTooShort?;
    }
  }

  /** What `Validate` promises about its result, taken together: the result is empty exactly for acceptable forms. */
  lemma NoErrorsIffAcceptable(values: FormValues, errors: seq<FormError>)
    requires NameRequired in errors <==> Blank(values.name)
    requires EmailRequired in errors <==> Blank(values.email)
    requires EmailInvalid in errors <==> !Blank(values.email) && !MatchesEmailPattern(values.email)
    requires MessageTooShort in errors <==> |Trim(values.message)| + |values.subject| < 2
    ensures errors == [] <==> Acceptable(values)
  {
    NothingReported(errors);
  }

  // ---------------------------------------------------------- submissions

  datatype Submission = Submission(name: string, email: string, subject: string, message: string, timestamp: int)

  /** `flags` after setting the first `k` fields of `FieldIds` from `errors`, as the page does. */
  function FlagsUpTo(flags: map<string, bool>, errors: seq<FormError>, k: nat): map<string, bool>
    requires k <= |FieldIds|
  {
    if k == 0 then flags
    else FlagsUpTo(flags, errors, k - 1)[FieldIds[k - 1] := FlaggedAsWritten(errors, FieldIds[k - 1])]
  }

  /** The page's `submissions` list and the fields' `aria-invalid` attributes. */
  class ContactForm {
    var submissions: seq<Submission>
    /** `aria-invalid` of each field; a missing key is a removed attribute. */
    var ariaInvalid: map<string, bool>

    /** Page load with the list read back from local storage. */
    constructor (stored: seq<Submission>)
      ensures submissions == stored && ariaInvalid == map[]
    {
      submissions := stored;
      ariaInvalid := map[];
    }

    /** Sets each field's flag after a failed submission, by the page's text-matching rule. */
    method FlagFields(errors: seq<FormError>)
      modifies this`ariaInvalid
      ensures ariaInvalid == old(ariaInvalid)["name" := FlaggedAsWritten(errors, "name")]
                                             ["email" := FlaggedAsWritten(errors, "email")]
                                             ["message" := FlaggedAsWritten(errors, "message")]
    {
      var k := 0;
      while k < |FieldIds|
        invariant 0 <= k <= |FieldIds|
        invariant ariaInvalid == FlagsUpTo(old(ariaInvalid), errors, k)
      {
        ariaInvalid := ariaInvalid[FieldIds[k] := FlaggedAsWritten(errors, FieldIds[k])];
        k := k + 1;
      }
      var flags := old(ariaInvalid);
      assert FlagsUpTo(flags, errors, 1) == flags["name" := FlaggedAsWritten(errors, "name")];
      assert FlagsUpTo(flags, errors, 2) == FlagsUpTo(flags, errors, 1)["email" := FlaggedAsWritten(errors, "email")];
    }

    /** Removes the three fields' flags after a successful submission. */
    method ClearFlags()
      modifies this`ariaInvalid
      ensures ariaInvalid == old(ariaInvalid) - set id | id in FieldIds
    {
      var k := 0;
      while k < |FieldIds|
        invariant 0 <= k <= |FieldIds|
        invariant ariaInvalid == old(ariaInvalid) - set id | id in FieldIds[..k]
      {
        assert FieldIds[..k + 1] == FieldIds[..k] + [FieldIds[k]];
        ariaInvalid := ariaInvalid - {FieldIds[k]};
        k := k + 1;
      }
      assert FieldIds[..k] == FieldIds;
    }

    /**
     * The submit handler: on errors nothing is stored and the fields are
     * flagged (never the name field, whose message does not contain `name`);
     * otherwise the new entry goes in front of the list.
     */
    method Submit(values: FormValues, now: int) returns (errors: seq<FormError>)
      modifies this
      ensures errors == [] <==> Acceptable(values)
      ensures errors != [] ==>
                && submissions == old(submissions)
                && ariaInvalid
                   == old(ariaInvalid)["name" := false]
                                      ["email" := Blank(values.email) || !MatchesEmailPattern(values.email)]
                                      ["message" := |Trim(values.message)| + |values.subject| < 2]
      ensures errors == [] ==>
                && submissions == [Submission(values.name, values.email, values.subject, values.message, now)] + old(submissions)
                && ariaInvalid == old(ariaInvalid) - {"name", "email", "message"}
    {
      errors := Validate(values);
      NoErrorsIffAcceptable(values, errors);
      if errors != [] {
        AsWrittenFlags(errors);
        FlagFields(errors);
        return;
      }
      submissions := [Submission(values.name, values.email, values.subject, values.message, now)] + submissions;
      ClearFlags();
      assert (set id | id in FieldIds) == {"name", "email", "message"};
    }
  }

  // ------------------------------------------------------ submissions view

  const NoSubmissions := "Aucun message enregistré."
  const NoSubject := "(pas de sujet)"
  const NoMessage := "(pas de corps de message)"

  /** JavaScript's `s || fallback` on strings. */
  function OrElse(s: string, fallback: string): string {
    if s == "" then fallback else s
  }

  datatype EntryView = EntryView(name: string, email: string, subject: string, message: string, timestamp: int)

  datatype SubmissionsView = Placeholder(text: string) | Entries(entries: seq<EntryView>)

  function RenderEntry(s: Submission): EntryView {
    EntryView(
      EscapeHtml(s.name),
      EscapeHtml(s.email),
      EscapeHtml(OrElse(s.subject, NoSubject)),
      EscapeHtml(OrElse(s.message, NoMessage)),
      s.timestamp)
  }

  /** `Array.prototype.map`. */
  function Map<A, B>(f: A -> B, s: seq<A>): (r: seq<B>)
    ensures |r| == |s|
    ensures forall i :: 0 <= i < |s| ==> r[i] == f(s[i])
  {
    seq(|s|, i requires 0 <= i < |s| => f(s[i]))
  }

  /** Mapping a list with an element put in front puts that element's image in front. */
  lemma MapPrepend<A, B>(f: A -> B, x: A, s: seq<A>)
    ensures Map(f, [x] + s) == [f(x)] + Map(f, s)
  {
    var l, r := Map(f, [x] + s), [f(x)] + Map(f, s);
    forall k | 0 <= k < |l| ensures l[k] == r[k] {
      if k > 0 { assert ([x] + s)[k] == s[k - 1]; }
    }
  }

  /** `renderSubmissions`: a placeholder for an empty list, otherwise one entry per submission in list order. */
  function RenderSubmissions(subs: seq<Submission>): (v: SubmissionsView)
    ensures v.Placeholder? <==> subs == []
    ensures v.Placeholder? ==> v.text == NoSubmissions
    ensures v.Entries? ==> |v.entries| == |subs|
  {
    if subs == [] then Placeholder(NoSubmissions) else Entries(Map(RenderEntry, subs))
  }

  /** Every shown field decodes back to what was submitted (or to its fallback text). */
  lemma RenderedEntriesDecode(subs: seq<Submission>, i: nat)
    requires i < |subs|
    ensures RenderSubmissions(subs).Entries?
    ensures var e := RenderSubmissions(subs).entries[i];
            && Unescape(e.name) == subs[i].name
            && Unescape(e.email) == subs[i].email
            && Unescape(e.subject) == OrElse(subs[i].subject, NoSubject)
            && Unescape(e.message) == OrElse(subs[i].message, NoMessage)
            && e.timestamp == subs[i].timestamp
  {
    var s := subs[i];
    EscapeHtmlRoundTrip(s.name);
    EscapeHtmlRoundTrip(s.email);
    EscapeHtmlRoundTrip(OrElse(s.subject, NoSubject));
    EscapeHtmlRoundTrip(OrElse(s.message, NoMessage));
  }

  /** After a successful submission the new entry is shown first, then the older ones in their order. */
  lemma NewestShownFirst(old_subs: seq<Submission>, entry: Submission)
    ensures var v := RenderSubmissions([entry] + old_subs);
            && v.Entries?
            && v.entries[0] == RenderEntry(entry)
            && (old_subs != [] ==> v.entries[1..] == RenderSubmissions(old_subs).entries)
  {
    MapPrepend(RenderEntry, entry, old_subs);
    assert ([RenderEntry(entry)] + Map(RenderEntry, old_subs))[1..] == Map(RenderEntry, old_subs);
  }
}
