/**
 * The student search form: the identifier typed in is stripped of
 * surrounding whitespace; a blank one is refused with a message, any other
 * redirects to that student's details page.
 */
module Search {

  const StudentPagePrefix: string := "/student/"
  const BlankIdMessage: string := "Please enter a student ID"

  /** HTTP status of the redirect ("302 Found"). */
  const Found: int := 302

  /** What the search form answers: the form again with an error, or a redirect. */
  datatype SearchResponse =
    | ShowError(message: string)
    | Redirect(url: string, statusCode: int)

  /**
   * The characters Python's `str.strip()` removes by default: those for
   * which `str.isspace()` holds.
   */
  predicate IsSpace(c: char) {
    || '\t' <= c <= '\r'
    || '\U{1C}' <= c <= ' '
    || c == '\U{85}' || c == '\U{A0}' || c == '\U{1680}'
    || '\U{2000}' <= c <= '\U{200A}'
    || c == '\U{2028}' || c == '\U{2029}' || c == '\U{202F}' || c == '\U{205F}'
    || c == '\U{3000}'
  }

  predicate AllSpace(s: string) {
    forall k :: 0 <= k < |s| ==> IsSpace(s[k])
  }

  /** `s` without its leading whitespace. */
  function StripStart(s: string): (r: string)
    ensures |r| <= |s| && r == s[|s| - |r|..]
    ensures AllSpace(s[..|s| - |r|])
    ensures r == [] || !IsSpace(r[0])
  {
    if s != [] && IsSpace(s[0]) then StripStart(s[1..]) else s
  }

  /** `s` without its trailing whitespace. */
  function StripEnd(s: string): (r: string)
    ensures |r| <= |s| && r == s[..|r|]
    ensures AllSpace(s[|r|..])
    ensures r == [] || !IsSpace(r[|r| - 1])
  {
    if s != [] && IsSpace(s[|s| - 1]) then StripEnd(s[..|s| - 1]) else s
  }

  /**
   * `s` without whitespace at either end: a contiguous part of `s` that
   * neither starts nor ends with whitespace, with only whitespace cut away
   * around it, and empty exactly when `s` is all whitespace.
   */
  function Strip(s: string): (r: string)
    ensures r == [] || (!IsSpace(r[0]) && !IsSpace(r[|r| - 1]))
    ensures exists i :: 0 <= i <= |s| - |r| && r == s[i..i + |r|] &&
              AllSpace(s[..i]) && AllSpace(s[i + |r|..])
    ensures r == [] <==> AllSpace(s)
  {
    var t := StripStart(s);
    var r := StripEnd(t);
    StripParts(s, t, r);
    r
  }

  /**
   * The two halves of `Strip` put together: `t` is `s` with leading
   * whitespace cut off, `r` is `t` with trailing whitespace cut off.
   */
  lemma StripParts(s: string, t: string, r: string)
    requires |t| <= |s| && t == s[|s| - |t|..] && AllSpace(s[..|s| - |t|])
    requires t == [] || !IsSpace(t[0])
    requires |r| <= |t| && r == t[..|r|] && AllSpace(t[|r|..])
    ensures var i := |s| - |t|;
              0 <= i <= |s| - |r| && r == s[i..i + |r|] &&
              AllSpace(s[..i]) && AllSpace(s[i + |r|..])
    ensures r == [] <==> AllSpace(s)
  {
    var i := |s| - |t|;
    assert s[i..i + |r|] == t[..|r|];
    assert s[i + |r|..] == t[|r|..];
    if r == [] {
      assert s[..i] == s;
    } else {
      assert s[i] == r[0];
    }
  }

  /** Stripping twice strips nothing more. */
  lemma StripIdempotent(s: string)
    ensures Strip(Strip(s)) == Strip(s)
  {
    var r := Strip(s);
    if r != [] {
      assert StripStart(r) == r;
      assert StripEnd(r) == r;
    }
  }

  /**
   * The search form: refuse an identifier that is blank once stripped,
   * otherwise redirect to the stripped identifier's page.
   */
  function SearchStudent(studentId: string): (response: SearchResponse)
    ensures response.ShowError? <==> AllSpace(studentId)
    ensures response.ShowError? ==> response.message == BlankIdMessage
    ensures response.Redirect? ==>
              && response.statusCode == Found
              && |response.url| > |StudentPagePrefix|
              && response.url[..|StudentPagePrefix|] == StudentPagePrefix
              && response.url[|StudentPagePrefix|..] == Strip(studentId)
  {
    var id := Strip(studentId);
    if id == [] then
      ShowError(BlankIdMessage)
    else
      Redirect(StudentPagePrefix + id, Found)
  }
}
