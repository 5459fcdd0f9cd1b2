/** src/app/api/contact/route.ts: the contact form's required-field and email checks. The
    route stores and sends nothing; it only answers. */
module ContactApi {
  import opened Common

  /** The JSON body; an absent field is "". */
  datatype ContactForm = ContactForm(name: string, email: string, subject: string, message: string)

  /** A character the class `[^\s@]` matches. */
  predicate Plain(c: char) {
    !IsSpace(c) && c != '@'
  }

  /** `[^\s@]+`: a nonempty run of such characters. */
  predicate PlainRun(t: string) {
    |t| > 0 && forall i :: 0 <= i < |t| ==> Plain(t[i])
  }

  /** `/^[^\s@]+@[^\s@]+\.[^\s@]+$/.test(s)`: the text is a run, '@', a run, '.', a run. */
  ghost predicate MatchesEmailRegex(s: string) {
    exists a, b :: 0 <= a < b < |s| && s[a] == '@' && s[b] == '.'
                   && PlainRun(s[..a]) && PlainRun(s[a + 1..b]) && PlainRun(s[b + 1..])
  }

  predicate NoSpace(s: string) {
    forall i :: 0 <= i < |s| ==> !IsSpace(s[i])
  }

  /** The domain has a '.' that is neither its first nor its last character. */
  predicate DotInside(d: string) {
    exists k :: 0 < k < |d| - 1 && d[k] == '.'
  }

  /** The email rule stated directly: no whitespace, exactly one '@', a nonempty part before
      it, and a domain after it with an inner '.'. */
  predicate ValidEmail(s: string) {
    NoSpace(s) && '@' in s
    && var at := IndexOf(s, '@');
       at > 0 && '@' !in s[at + 1..] && DotInside(s[at + 1..])
  }

  /** The direct rule accepts exactly what the regular expression matches. */
  lemma {:induction false} ValidEmailIffRegex(s: string)
    ensures ValidEmail(s) <==> MatchesEmailRegex(s)
  {
    if ValidEmail(s) {
      var a := IndexOf(s, '@');
      var d := s[a + 1..];
      var k :| 0 < k < |d| - 1 && d[k] == '.';
      var b := a + 1 + k;
      assert s[b] == d[k];
      forall i | 0 <= i < a ensures Plain(s[..a][i]) {
        assert s[..a][i] == s[i];
      }
      var p2, p3 := s[a + 1..b], s[b + 1..];
      forall i | 0 <= i < |p2| ensures Plain(p2[i]) {
        assert p2[i] == d[i];
      }
      forall i | 0 <= i < |p3| ensures Plain(p3[i]) {
        assert p3[i] == d[k + 1 + i];
      }
      assert PlainRun(s[..a]) && PlainRun(s[a + 1..b]) && PlainRun(s[b + 1..]);
    }
    if MatchesEmailRegex(s) {
      var a, b :| 0 <= a < b < |s| && s[a] == '@' && s[b] == '.'
                  && PlainRun(s[..a]) && PlainRun(s[a + 1..b]) && PlainRun(s[b + 1..]);
      ShapeIsValid(s, a, b);
    }
  }

  /** A text of the regular expression's shape, with '@' at `a` and '.' at `b`, passes the
      direct rule. */
  lemma {:induction false} ShapeIsValid(s: string, a: nat, b: nat)
    requires a < b < |s| && s[a] == '@' && s[b] == '.'
    requires PlainRun(s[..a]) && PlainRun(s[a + 1..b]) && PlainRun(s[b + 1..])
    ensures ValidEmail(s)
  {
    forall i | 0 <= i < |s| && i != a && i != b ensures Plain(s[i]) {
      if i < a { assert s[i] == s[..a][i]; }
      else if i < b { assert s[i] == s[a + 1..b][i - a - 1]; }
      else { assert s[i] == s[b + 1..][i - b - 1]; }
    }
    assert NoSpace(s);
    forall i | 0 <= i < a ensures s[i] != '@' {
      assert s[i] == s[..a][i];
    }
    assert IndexOf(s, '@') == a;
    var d := s[a + 1..];
    forall j | 0 <= j < |d| ensures d[j] != '@' {
      assert d[j] == s[a + 1 + j];
    }
    assert d[b - a - 1] == s[b];
  }

  /** POST /api/contact; `None` is a body that is not JSON, which the `catch` answers with
      500. */
  function PostContact(body: Option<ContactForm>): (r: Response<string>)
    ensures body.None? ==> r == Fail(500, "Internal server error")
    ensures body.Some? ==> var f := body.value;
      && (f.name == "" || f.email == "" || f.subject == "" || f.message == "" <==> r == Fail(400, "All fields are required"))
      && (r == Fail(400, "Please enter a valid email address") <==>
            f.name != "" && f.email != "" && f.subject != "" && f.message != "" && !MatchesEmailRegex(f.email))
      && (r.Ok? <==> f.name != "" && f.email != "" && f.subject != "" && f.message != "" && MatchesEmailRegex(f.email))
      && (r.Ok? ==> r == Ok(200, "Message sent successfully"))
  {
    match body
    case None => Fail(500, "Internal server error")
    case Some(f) =>
      ValidEmailIffRegex(f.email);
      if f.name == "" || f.email == "" || f.subject == "" || f.message == "" then Fail(400, "All fields are required")
      else if !ValidEmail(f.email) then Fail(400, "Please enter a valid email address")
      else Ok(200, "Message sent successfully")
  }

  /** A missing field is reported even when the email is malformed too: the field check
      comes first. */
  lemma {:induction false} FieldsCheckedFirst(f: ContactForm)
    requires f.name == "" && !MatchesEmailRegex(f.email)
    ensures PostContact(Some(f)).error == "All fields are required"
  {
  }

  /** A plain address passes the rule. */
  lemma {:induction false} PlainAddressAccepted()
    ensures ValidEmail("a@b.co")
  {
    assert IndexOf("a@b.co", '@') == 1;
    assert "a@b.co"[2..][1] == '.';
  }

  /** A second '@' fails the rule. */
  lemma {:induction false} ExtraAtRejected()
    ensures !ValidEmail("a@b@c.de")
  {
    assert IndexOf("a@b@c.de", '@') == 1;
    assert "a@b@c.de"[2..][1] == '@';
  }

  /** A space fails the rule. */
  lemma {:induction false} SpaceRejected()
    ensures !ValidEmail("a b@c.de")
  {
    assert "a b@c.de"[1] == ' ';
  }

  /** A '.' right after the '@' or at the very end, or nothing before the '@', fails the
      rule. */
  lemma {:induction false} MisplacedPartsRejected()
    ensures !ValidEmail("a@.co") && !ValidEmail("a@bc.") && !ValidEmail("@b.co")
  {
    assert IndexOf("a@.co", '@') == 1;
    assert "a@.co"[2..] == ".co";
    assert IndexOf("a@bc.", '@') == 1;
    assert "a@bc."[2..] == "bc.";
    assert IndexOf("@b.co", '@') == 0;
  }
}
