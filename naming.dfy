/**
 * The string computations of the archiver: the documents-page URL of a course,
 * the sanitised course name, the course id, the archive's file name, the
 * normalised output directory and `os.path.join`.
 */
module Naming {
  import opened Optional
  import opened Strings

  // ---------------------------------------------------------------------------
  // Documents URL
  // ---------------------------------------------------------------------------

  const CourseHome := "course_home"
  const Document := "document"

  /** The documents page of a course: every `course_home` becomes `document`. */
  function DocumentsUrl(course: string): string
  {
    Replace(course, CourseHome, Document)
  }

  /** A course URL without `course_home` is its own documents URL. */
  lemma DocumentsUrlWithoutCourseHome(course: string)
    requires !Contains(course, CourseHome)
    ensures DocumentsUrl(course) == course
  {
    ReplaceFromWithoutMatch(course, CourseHome, Document, 0);
    assert course[0..] == course;
  }

  /** The first `course_home` becomes `document`, and the rewrite goes on from
      right after it, so every non-overlapping occurrence is rewritten, left to
      right. */
  lemma DocumentsUrlRewritesFirst(course: string, i: nat)
    requires IndexOf(course, CourseHome) == Some(i)
    ensures DocumentsUrl(course) == course[..i] + Document + ReplaceFrom(course, CourseHome, Document, i + |CourseHome|)
  {
    ReplaceFromAtMatch(course, CourseHome, Document, 0, i);
    assert course[0..i] == course[..i];
  }

  // ---------------------------------------------------------------------------
  // Course name
  // ---------------------------------------------------------------------------

  /** The characters the sanitiser keeps: letters, digits and the space. */
  predicate IsNameChar(c: char) { IsAlpha(c) || IsDigit(c) || c == ' ' }

  /** The generator expression of the sanitiser: keeps the name characters, in order. */
  function KeepNameChars(s: string): (r: string)
    ensures forall i :: 0 <= i < |r| ==> IsNameChar(r[i])
    ensures IsSubsequence(r, s)
    ensures (forall i :: 0 <= i < |s| ==> IsNameChar(s[i])) ==> r == s
  {
    if s == [] then []
    else
      assert s == [s[0]] + s[1..];
      if IsNameChar(s[0]) then [s[0]] + KeepNameChars(s[1..])
      else KeepNameChars(s[1..])
  }

  /** Every name character is kept as often as it occurs, and every other
      character is dropped. */
  lemma {:induction false} KeepNameCharsCounts(s: string, c: char)
    ensures multiset(KeepNameChars(s))[c] == if IsNameChar(c) then multiset(s)[c] else 0
  {
    if s != [] {
      KeepNameCharsCounts(s[1..], c);
      assert s == [s[0]] + s[1..];
      assert multiset(s) == multiset([s[0]]) + multiset(s[1..]);
    }
  }

  /** The cleaned course name before lower-casing: kept characters, trailing
      whitespace stripped. */
  function CleanName(name: string): (r: string)
    ensures forall i :: 0 <= i < |r| ==> IsNameChar(r[i])
    ensures |r| > 0 ==> r[|r| - 1] != ' '
    ensures IsSubsequence(r, name)
    ensures r <= KeepNameChars(name)
    ensures forall i :: |r| <= i < |KeepNameChars(name)| ==> KeepNameChars(name)[i] == ' '
  {
    var kept := KeepNameChars(name);
    var clean := RStrip(kept, IsSpace);
    PrefixIsSubsequence(clean, kept, name);
    clean
  }

  /** Lower-casing a string of name characters that does not end in a space
      gives a string of lower-case name characters that does not end in one. */
  lemma LowerNameChars(t: string)
    requires forall i :: 0 <= i < |t| ==> IsNameChar(t[i])
    requires |t| > 0 ==> t[|t| - 1] != ' '
    ensures forall i :: 0 <= i < |Lower(t)| ==> IsNameChar(Lower(t)[i]) && !IsUpper(Lower(t)[i])
    ensures |Lower(t)| > 0 ==> Lower(t)[|Lower(t)| - 1] != ' '
  {
  }

  /** The name that goes into the archive's file name: only lower-case letters,
      digits and spaces, no trailing space, and obtained from the lower-cased
      heading by deleting characters. */
  function SanitisedName(name: string): (r: string)
    ensures forall i :: 0 <= i < |r| ==> IsNameChar(r[i]) && !IsUpper(r[i])
    ensures |r| > 0 ==> r[|r| - 1] != ' '
    ensures IsSubsequence(r, Lower(name))
  {
    var clean := CleanName(name);
    LowerNameChars(clean);
    LowerIsSubsequence(clean, name);
    Lower(clean)
  }

  /** Sanitising a sanitised name changes nothing. */
  lemma SanitisedNameIdempotent(name: string)
    ensures SanitisedName(SanitisedName(name)) == SanitisedName(name)
  {
  }

  // ---------------------------------------------------------------------------
  // Course id and archive file name
  // ---------------------------------------------------------------------------

  const CidReq := "cidReq"

  /** Python's `s[k:]`: empty when `k` is past the end. */
  function SliceFrom(s: string, k: nat): (r: string)
    ensures |r| <= |s| && r == s[|s| - |r|..]
    ensures k <= |s| ==> |r| == |s| - k
    ensures k >= |s| ==> r == []
  {
    if k <= |s| then s[k..] else []
  }

  /** `course[course.index('cidReq') + 7:]`: what follows `cidReq=`, where the
      first `cidReq` is found; `None` where `str.index` raises. */
  function CourseId(course: string): (r: Option<string>)
    ensures r.None? <==> !Contains(course, CidReq)
    ensures r.Some? ==> |r.value| <= |course| && r.value == course[|course| - |r.value|..]
    ensures r.Some? ==> var i := IndexOf(course, CidReq).value;
      |r.value| == if i + 7 <= |course| then |course| - i - 7 else 0
  {
    match IndexOf(course, CidReq)
    case None => None
    case Some(i) => Some(SliceFrom(course, i + 7))
  }

  /** The archive's file name, `"<id> - <sanitised name>.zip"`; `None` where the
      course URL has no `cidReq`. */
  function TargetName(course: string, heading: string): (r: Option<string>)
    ensures r.Some? <==> Contains(course, CidReq)
  {
    match CourseId(course)
    case None => None
    case Some(id) => Some(id + " - " + SanitisedName(heading) + ".zip")
  }

  /** For a course URL `prefix + "cidReq=" + id` the file name starts with `id`. */
  lemma TargetNameOfCourseUrl(prefix: string, id: string, heading: string)
    requires !Contains(prefix, CidReq)
    ensures TargetName(prefix + "cidReq=" + id, heading) == Some(id + " - " + SanitisedName(heading) + ".zip")
  {
    var u := prefix + "cidReq=" + id;
    var n := |prefix|;
    assert u[n..n + 6] == CidReq;
    forall j | 0 <= j < n
      ensures !OccursAt(u, CidReq, j)
    {
      if j + 6 <= n {
        assert u[j..j + 6] == prefix[j..j + 6];
        assert !OccursAt(prefix, CidReq, j);
      } else {
        assert u[n] == 'c';
        assert CidReq[n - j] != 'c';
      }
    }
    IndexOfIsLeast(u, CidReq, n);
    assert u[n + 7..] == id;
  }

  /** Two headings that sanitise alike name the same archive; in particular a
      heading and its sanitised form do. */
  lemma TargetNameOfSanitisedHeading(course: string, heading: string)
    ensures TargetName(course, SanitisedName(heading)) == TargetName(course, heading)
  {
    SanitisedNameIdempotent(heading);
  }

  // ---------------------------------------------------------------------------
  // Output directory and paths
  // ---------------------------------------------------------------------------

  predicate IsSlash(c: char) { c == '/' }

  /** `path.rstrip("/") + "/"`, applied to the absolute output path: ends in
      exactly one `/`, and only trailing slashes of the input are removed. */
  function NormaliseOutDir(abs: string): (r: string)
    ensures |r| > 0 && r[|r| - 1] == '/'
    ensures |r| == 1 || r[|r| - 2] != '/'
    ensures r[..|r| - 1] <= abs
    ensures forall i :: |r| - 1 <= i < |abs| ==> abs[i] == '/'
  {
    RStrip(abs, IsSlash) + "/"
  }

  /** Normalising a normalised directory changes nothing. */
  lemma NormaliseOutDirIdempotent(abs: string)
    ensures NormaliseOutDir(NormaliseOutDir(abs)) == NormaliseOutDir(abs)
  {
    var d := NormaliseOutDir(abs);
    var q := d[..|d| - 1];
    assert RStrip(q, IsSlash) == q;
    assert d[..|d| - 1] == q;
  }

  /** `os.path.join(dir, name)` on POSIX: an absolute `name` replaces `dir`;
      otherwise a `/` goes between them unless `dir` is empty or ends in one. */
  function Join(dir: string, name: string): string
  {
    if |name| > 0 && name[0] == '/' then name
    else if |dir| == 0 || dir[|dir| - 1] == '/' then dir + name
    else dir + "/" + name
  }

  /** Under a normalised output directory, joining is concatenation. */
  lemma JoinUnderOutDir(abs: string, name: string)
    requires |name| == 0 || name[0] != '/'
    ensures Join(NormaliseOutDir(abs), name) == NormaliseOutDir(abs) + name
  {
  }

  /** The fixed name under which the browser saves every archive. */
  const Provisional := "documents.zip"

  /** A name of the shape `id + " - " + c + ".zip"`, with no `/` in `c`, is not
      the provisional file under any directory prefix that is empty or ends in `/`. */
  lemma ShapedNameIsNotProvisional(p: string, id: string, c: string)
    requires |p| == 0 || p[|p| - 1] == '/'
    requires forall i :: 0 <= i < |c| ==> c[i] != '/'
    ensures id + " - " + c + ".zip" != p + Provisional
  {
    var name := id + " - " + c + ".zip";
    var src := p + Provisional;
    var q := |id| + 2;
    var m := |name|;
    assert name[q] == ' ';
    if |src| == m {
      if q >= m - 13 {
        assert src[q] == Provisional[q - (m - 13)];
        assert Provisional[q - (m - 13)] != ' ';
      } else {
        assert src[m - 14] == p[|p| - 1];
        if q < m - 14 {
          assert name[m - 14] == c[m - 14 - q - 1];
        }
        assert src[m - 14] != name[m - 14];
      }
    }
  }

  /** No archive file name, joined to any directory, is the browser's
      provisional file: a rename never lands on it. */
  lemma ProvisionalIsNotATarget(dir: string, course: string, heading: string)
    requires TargetName(course, heading).Some?
    ensures Join(dir, Provisional) != Join(dir, TargetName(course, heading).value)
  {
    var id := CourseId(course).value;
    var c := SanitisedName(heading);
    var name := id + " - " + c + ".zip";
    assert TargetName(course, heading).value == name;
    var p := if |dir| == 0 || dir[|dir| - 1] == '/' then dir else dir + "/";
    assert Join(dir, Provisional) == p + Provisional;
    if name[0] == '/' {
      ShapedNameIsNotProvisional(p, id, c);
    } else {
      ShapedNameIsNotProvisional([], id, c);
      assert Join(dir, name) == p + name;
      assert (p + name)[|p|..] == name;
      assert (p + Provisional)[|p|..] == Provisional;
    }
  }
}
