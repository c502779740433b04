/**
 * The e-mail syntax a debt's customer_email must have: Ruby's
 * URI::MailTo::EMAIL_REGEXP, i.e. a non-empty local part over letters, digits
 * and .!#$%&'*+/=?^_`{|}~- , one '@', and a domain made of dot-separated
 * labels of 1 to 63 letters, digits or hyphens that begin and end with a
 * letter or digit.
 */
module EmailFormat {

  import opened Basics

  predicate IsAlnum(c: char) {
    'a' <= c <= 'z' || 'A' <= c <= 'Z' || '0' <= c <= '9'
  }

  predicate IsLocalChar(c: char) {
    IsAlnum(c) || c in ".!#$%&'*+/=?^_`{|}~-"
  }

  /** [a-zA-Z0-9](?:[a-zA-Z0-9-]{0,61}[a-zA-Z0-9])? */
  predicate IsLabel(s: string) {
    1 <= |s| <= 63 && IsAlnum(s[0]) && IsAlnum(s[|s| - 1])
    && forall i :: 0 <= i < |s| ==> IsAlnum(s[i]) || s[i] == '-'
  }

  /** Index of the first occurrence of c in s. */
  function IndexOf(s: string, c: char): (r: Option<nat>)
    ensures r.None? <==> c !in s
    ensures r.Some? ==> r.value < |s| && s[r.value] == c && c !in s[..r.value]
  {
    if s == [] then None
    else if s[0] == c then Some(0)
    else
      match IndexOf(s[1..], c)
      case None => None
      case Some(k) => assert s[..k + 1] == [s[0]] + s[1..][..k]; Some(k + 1)
  }

  /** label(\.label)* ; labels hold no dot, so the first dot ends the first label. */
  predicate IsDomain(s: string)
    decreases |s|
  {
    match IndexOf(s, '.')
    case None => IsLabel(s)
    case Some(k) => IsLabel(s[..k]) && IsDomain(s[k + 1..])
  }

  /** \A local @ domain \z ; the local part holds no '@', so the first '@' splits. */
  predicate IsEmail(s: string) {
    match IndexOf(s, '@')
    case None => false
    case Some(k) => k >= 1 && (forall i :: 0 <= i < k ==> IsLocalChar(s[i])) && IsDomain(s[k + 1..])
  }

  /** A well-formed address is never blank, so the format rule implies presence. */
  lemma EmailIsPresent(s: string)
    requires IsEmail(s)
    ensures Present(s)
  {
    var k := IndexOf(s, '@').value;
    assert !IsSpace(s[0]);
  }

  /** Every well-formed address holds exactly one '@'. */
  lemma {:induction false} DomainHasNoAt(s: string)
    requires IsDomain(s)
    ensures '@' !in s
    decreases |s|
  {
    match IndexOf(s, '.')
    case None =>
      assert forall i :: 0 <= i < |s| ==> s[i] != '@';
    case Some(k) =>
      DomainHasNoAt(s[k + 1..]);
      assert forall i :: 0 <= i < k ==> s[..k][i] != '@';
      assert s == s[..k] + [s[k]] + s[k + 1..];
  }

  /** IndexOf finds exactly the first occurrence. */
  lemma {:induction false} IndexOfFirst(s: string, c: char, k: nat)
    requires k < |s| && s[k] == c && c !in s[..k]
    ensures IndexOf(s, c) == Some(k)
  {
    if k > 0 {
      assert s[1..][k - 1] == c;
      assert s[1..][..k - 1] == s[..k][1..];
      IndexOfFirst(s[1..], c, k - 1);
    }
  }

  lemma SampleLabels()
    ensures IsLabel("example") && IsLabel("com")
  {
  }

  lemma SampleDomain()
    ensures IsDomain("example.com")
  {
    var d := "example.com";
    IndexOfFirst(d, '.', 7);
    assert d[..7] == "example" && d[8..] == "com";
    SampleLabels();
    assert '.' !in "com";
    assert IsDomain("com");
  }

  lemma SampleLocalPart()
    ensures forall i :: 0 <= i < 9 ==> IsLocalChar("jan.novak"[i])
  {
  }

  /** The address of the integration scenario is accepted. */
  lemma AcceptsSampleAddress()
    ensures IsEmail("jan.novak@example.com")
  {
    var s := "jan.novak@example.com";
    assert s[..9] == "jan.novak";
    assert s[10..] == "example.com";
    IndexOfFirst(s, '@', 9);
    SampleDomain();
    SampleLocalPart();
  }

  /** A string without '@' is rejected whatever else it holds. */
  lemma RejectsWithoutAt(s: string)
    requires '@' !in s
    ensures !IsEmail(s)
  {
  }

  /** The value the integration scenario submits as invalid is rejected. */
  lemma RejectsSampleInvalid()
    ensures !IsEmail("invalid-email")
  {
    RejectsWithoutAt("invalid-email");
  }
}
