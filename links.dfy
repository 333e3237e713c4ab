/**
 * The scans over a loaded page: the `href` of every `<a>` element (absent
 * attributes are `None`) and the text of every `<h1>` element, in page order.
 * Each scan is a loop, proved equal to a specification function.
 */
module Links {
  import opened Optional
  import opened Strings

  /** Marks a link to a course's home page. */
  const CourseMarker := "course_home.php?cidReq="
  /** Marks the link that has the portal build a zip of a course's documents. */
  const ZipMarker := "downloadfolder"
  /** The portal's own name, which disqualifies a heading as the course name. */
  const Brand := "minerva"

  predicate IsCourseLink(href: Option<string>) { href.Some? && Contains(href.value, CourseMarker) }

  predicate IsZipLink(href: Option<string>) { href.Some? && Contains(href.value, ZipMarker) }

  predicate IsBranded(text: string) { Contains(Lower(text), Brand) }

  // ---------------------------------------------------------------------------
  // Course discovery
  // ---------------------------------------------------------------------------

  /** The courses a curriculum page links to: the distinct qualifying hrefs. */
  function CourseSet(hrefs: seq<Option<string>>): set<string>
  {
    set h | h in hrefs && IsCourseLink(h) :: h.value
  }

  /** A string is a course exactly when it is the `href` of some link of the
      page and contains the course marker. */
  lemma CourseSetMembers(hrefs: seq<Option<string>>, c: string)
    ensures c in CourseSet(hrefs) <==> Some(c) in hrefs && Contains(c, CourseMarker)
  {
    if c in CourseSet(hrefs) {
      var h :| h in hrefs && IsCourseLink(h) && h.value == c;
      assert h == Some(c);
    }
  }

  /** One more link adds its href when it qualifies, and nothing otherwise. */
  lemma CourseSetSnoc(hrefs: seq<Option<string>>, h: Option<string>)
    ensures CourseSet(hrefs + [h]) == CourseSet(hrefs) + (if IsCourseLink(h) then {h.value} else {})
  {
    forall c
      ensures c in CourseSet(hrefs + [h]) <==> c in CourseSet(hrefs) + (if IsCourseLink(h) then {h.value} else {})
    {
      CourseSetMembers(hrefs + [h], c);
      CourseSetMembers(hrefs, c);
    }
  }

  /** The loop of `get_courses`: a set built up link by link, which ends as the
      set of distinct qualifying hrefs; repeated hrefs are one course, so there
      are never more courses than links. */
  method CollectCourses(hrefs: seq<Option<string>>) returns (courses: set<string>)
    ensures courses == CourseSet(hrefs)
    ensures |courses| <= |hrefs|
  {
    courses := {};
    for i := 0 to |hrefs|
      invariant courses == CourseSet(hrefs[..i])
    {
      var href := hrefs[i];
      assert hrefs[..i + 1] == hrefs[..i] + [href];
      CourseSetSnoc(hrefs[..i], href);
      if href.Some? && Contains(href.value, CourseMarker) {
        courses := courses + {href.value};
      }
    }
    assert hrefs[..|hrefs|] == hrefs;
    CourseSetSize(hrefs);
  }

  /** There are never more courses than links. */
  lemma {:induction false} CourseSetSize(hrefs: seq<Option<string>>)
    ensures |CourseSet(hrefs)| <= |hrefs|
  {
    if hrefs != [] {
      var init := hrefs[..|hrefs| - 1];
      assert hrefs == init + [hrefs[|hrefs| - 1]];
      CourseSetSnoc(init, hrefs[|hrefs| - 1]);
      CourseSetSize(init);
    }
  }

  // ---------------------------------------------------------------------------
  // Archive link
  // ---------------------------------------------------------------------------

  /** The first href, in page order, that marks the archive download. */
  function FirstZipLink(hrefs: seq<Option<string>>): (r: Option<string>)
    ensures r.None? <==> forall j :: 0 <= j < |hrefs| ==> !IsZipLink(hrefs[j])
    ensures r.Some? ==> Contains(r.value, ZipMarker) && r in hrefs
  {
    if hrefs == [] then None
    else if IsZipLink(hrefs[0]) then hrefs[0]
    else
      assert forall j :: 1 <= j < |hrefs| ==> hrefs[j] == hrefs[1..][j - 1];
      FirstZipLink(hrefs[1..])
  }

  /** The archive link is the qualifying href with no qualifying href before it. */
  lemma {:induction false} FirstZipLinkIsFirst(hrefs: seq<Option<string>>, k: nat)
    requires k < |hrefs| && IsZipLink(hrefs[k])
    requires forall j :: 0 <= j < k ==> !IsZipLink(hrefs[j])
    ensures FirstZipLink(hrefs) == hrefs[k]
  {
    if k > 0 {
      FirstZipLinkIsFirst(hrefs[1..], k - 1);
    }
  }

  /** The zip-link loop of `download`, which stops at the first match. */
  method FindZipLink(hrefs: seq<Option<string>>) returns (zip: Option<string>)
    ensures zip == FirstZipLink(hrefs)
  {
    zip := None;
    var i := 0;
    while i < |hrefs|
      invariant 0 <= i <= |hrefs|
      invariant FirstZipLink(hrefs[i..]) == FirstZipLink(hrefs)
    {
      var href := hrefs[i];
      if href.Some? && Contains(href.value, ZipMarker) {
        zip := href;
        break;
      }
      assert hrefs[i..][1..] == hrefs[i + 1..];
      i := i + 1;
    }
  }

  // ---------------------------------------------------------------------------
  // Course name
  // ---------------------------------------------------------------------------

  /** The last heading, in page order, that does not carry the portal's name. */
  function LastUnbranded(headings: seq<string>): (r: Option<string>)
    ensures r.None? <==> forall j :: 0 <= j < |headings| ==> IsBranded(headings[j])
    ensures r.Some? ==> !IsBranded(r.value) && r.value in headings
  {
    if headings == [] then None
    else if !IsBranded(headings[|headings| - 1]) then Some(headings[|headings| - 1])
    else
      var init := headings[..|headings| - 1];
      assert forall j :: 0 <= j < |init| ==> init[j] == headings[j];
      LastUnbranded(init)
  }

  /** The course name is the unbranded heading with only branded ones after it. */
  lemma {:induction false} LastUnbrandedIsLast(headings: seq<string>, k: nat)
    requires k < |headings| && !IsBranded(headings[k])
    requires forall j :: k < j < |headings| ==> IsBranded(headings[j])
    ensures LastUnbranded(headings) == Some(headings[k])
  {
    if k < |headings| - 1 {
      LastUnbrandedIsLast(headings[..|headings| - 1], k);
    }
  }

  /** The heading loop of `download`: it has no `break`, so every unbranded
      heading overwrites the name found so far. */
  method FindCourseName(headings: seq<string>) returns (name: Option<string>)
    ensures name == LastUnbranded(headings)
  {
    name := None;
    for i := 0 to |headings|
      invariant name == LastUnbranded(headings[..i])
    {
      assert headings[..i + 1][..i] == headings[..i];
      if !Contains(Lower(headings[i]), Brand) {
        name := Some(headings[i]);
      }
    }
    assert headings[..|headings|] == headings;
  }
}
