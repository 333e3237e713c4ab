/**
 * The per-course download step of the archiver and the run over all courses.
 * The output directory is the set of paths that exist on disk; the browser's
 * page contents and whether its download lands in time are inputs.
 */
module Archiver {
  import opened Optional
  import opened Links
  import opened Naming

  /** What the documents page of a course shows: every link's `href` and every
      `<h1>` text, in page order. */
  datatype CoursePage = CoursePage(links: seq<Option<string>>, headings: seq<string>)

  /** How the download step of one course ends. Only the first two let the run
      go on; `ZipLinkNotFound` is the explicit `exit(1)`, the other three are
      exceptions nothing catches (iterating a `None` name, `str.index` finding
      no `cidReq`, the download wait timing out). */
  datatype Outcome =
    | AlreadyExists(name: string)
    | Saved(name: string)
    | ZipLinkNotFound
    | CourseNameMissing
    | CourseIdMissing
    | DownloadTimedOut
  {
    predicate IsFatal() { !(AlreadyExists? || Saved?) }
  }

  /** The outcome of one course, the URLs the browser was sent to, in order, and
      the paths that exist afterwards. */
  datatype Step = Step(outcome: Outcome, visited: seq<string>, paths: set<string>)

  /** Where the browser saves the archive: its download directory is `out_dir`. */
  function ProvisionalPath(outDir: string): string
  {
    Join(outDir, Provisional)
  }

  /** The download step of one course. `arrives` says whether the browser's
      download lands within the wait. */
  function Fetch(paths: set<string>, outDir: string, course: string, page: CoursePage, arrives: bool): Step
  {
    var visited := [course, DocumentsUrl(course)];
    match FirstZipLink(page.links)
    case None => Step(ZipLinkNotFound, visited, paths)
    case Some(zip) =>
      match LastUnbranded(page.headings)
      case None => Step(CourseNameMissing, visited, paths)
      case Some(heading) =>
        match TargetName(course, heading)
        case None => Step(CourseIdMissing, visited, paths)
        case Some(name) => Store(paths, outDir, name, zip, visited, arrives)
  }

  /** The file work of the step, once the archive's name `name` is known: skip
      when the archive exists, otherwise send the browser to `zip`, wait for the
      provisional file (one already present satisfies the wait as well) and
      rename it to the archive. */
  function Store(paths: set<string>, outDir: string, name: string, zip: string, visited: seq<string>, arrives: bool): Step
  {
    var target := Join(outDir, name);
    if target in paths then Step(AlreadyExists(name), visited, paths)
    else
      var src := ProvisionalPath(outDir);
      var landed := if arrives then paths + {src} else paths;
      if src !in landed then Step(DownloadTimedOut, visited + [zip], landed)
      else Step(Saved(name), visited + [zip], landed - {src} + {target})
  }

  /** Once the link, the heading and the archive name are found, the step is
      the file work. */
  lemma FetchStores(paths: set<string>, outDir: string, course: string, page: CoursePage, arrives: bool, zip: string, heading: string)
    requires FirstZipLink(page.links) == Some(zip) && LastUnbranded(page.headings) == Some(heading)
    requires TargetName(course, heading).Some?
    ensures Fetch(paths, outDir, course, page, arrives)
         == Store(paths, outDir, TargetName(course, heading).value, zip, [course, DocumentsUrl(course)], arrives)
  {
  }

  /** The file work never reports a missing download link. */
  lemma StoreFindsLink(paths: set<string>, outDir: string, name: string, zip: string, visited: seq<string>, arrives: bool)
    ensures Store(paths, outDir, name, zip, visited, arrives).outcome != ZipLinkNotFound
  {
  }

  /** Without a download link the step aborts the run before any naming or file
      work: nothing on disk changes and only the two course pages are visited. */
  lemma FetchWithoutZipLink(paths: set<string>, outDir: string, course: string, page: CoursePage, arrives: bool)
    ensures var s := Fetch(paths, outDir, course, page, arrives);
      s.outcome == ZipLinkNotFound <==> forall j :: 0 <= j < |page.links| ==> !IsZipLink(page.links[j])
    ensures var s := Fetch(paths, outDir, course, page, arrives);
      s.outcome == ZipLinkNotFound ==> s.paths == paths && s.visited == [course, DocumentsUrl(course)]
  {
    var visited := [course, DocumentsUrl(course)];
    match FirstZipLink(page.links)
    case None =>
    case Some(zip) =>
      match LastUnbranded(page.headings)
      case None =>
      case Some(heading) =>
        match TargetName(course, heading)
        case None =>
        case Some(name) =>
          StoreFindsLink(paths, outDir, name, zip, visited, arrives);
  }

  /** The step fails for want of a course name exactly when a download link is
      found but every heading carries the portal's name: instead of producing a
      file name, it aborts with the disk unchanged and only the two course pages
      visited. */
  lemma FetchWithoutCourseName(paths: set<string>, outDir: string, course: string, page: CoursePage, arrives: bool)
    ensures var s := Fetch(paths, outDir, course, page, arrives);
      s.outcome == CourseNameMissing <==>
        FirstZipLink(page.links).Some? && forall j :: 0 <= j < |page.headings| ==> IsBranded(page.headings[j])
    ensures var s := Fetch(paths, outDir, course, page, arrives);
      s.outcome == CourseNameMissing ==> s.paths == paths && s.visited == [course, DocumentsUrl(course)]
  {
    var visited := [course, DocumentsUrl(course)];
    match FirstZipLink(page.links)
    case None =>
    case Some(zip) =>
      match LastUnbranded(page.headings)
      case None =>
      case Some(heading) =>
        match TargetName(course, heading)
        case None =>
        case Some(name) =>
          StoreFatalKeepsDisk(paths, outDir, name, zip, visited, arrives);
  }

  /** A step that aborts the run leaves the disk exactly as it found it: every
      abort happens before the rename, and a download that did not land wrote
      nothing. */
  lemma FetchFatalKeepsDisk(paths: set<string>, outDir: string, course: string, page: CoursePage, arrives: bool)
    ensures var s := Fetch(paths, outDir, course, page, arrives);
      s.outcome.IsFatal() ==> s.paths == paths
  {
    var visited := [course, DocumentsUrl(course)];
    match FirstZipLink(page.links)
    case None =>
    case Some(zip) =>
      match LastUnbranded(page.headings)
      case None =>
      case Some(heading) =>
        match TargetName(course, heading)
        case None =>
        case Some(name) =>
          StoreFatalKeepsDisk(paths, outDir, name, zip, visited, arrives);
  }

  /** The file work aborts only when the download did not land, and then
      nothing on disk changes. */
  lemma StoreFatalKeepsDisk(paths: set<string>, outDir: string, name: string, zip: string, visited: seq<string>, arrives: bool)
    ensures var s := Store(paths, outDir, name, zip, visited, arrives);
      s.outcome.IsFatal() ==> s.outcome == DownloadTimedOut && s.paths == paths
  {
  }

  /** The step fails for want of a course id exactly when a download link and a
      course name are found but the course URL has no `cidReq`; nothing on disk
      changes and only the two course pages are visited. */
  lemma FetchWithoutCourseId(paths: set<string>, outDir: string, course: string, page: CoursePage, arrives: bool)
    ensures var s := Fetch(paths, outDir, course, page, arrives);
      s.outcome == CourseIdMissing <==>
        FirstZipLink(page.links).Some? && LastUnbranded(page.headings).Some? && CourseId(course).None?
    ensures var s := Fetch(paths, outDir, course, page, arrives);
      s.outcome == CourseIdMissing ==> s.paths == paths && s.visited == [course, DocumentsUrl(course)]
  {
    var visited := [course, DocumentsUrl(course)];
    match FirstZipLink(page.links)
    case None =>
    case Some(zip) =>
      match LastUnbranded(page.headings)
      case None =>
      case Some(heading) =>
        match TargetName(course, heading)
        case None =>
        case Some(name) =>
          StoreFatalKeepsDisk(paths, outDir, name, zip, visited, arrives);
  }

  /** The download wait times out exactly when the link, the course name and the
      course id are found, the archive is not on disk, the download does not land
      and no provisional file is present either. The browser was then sent to the
      zip link after the two course pages, and nothing on disk changes. */
  lemma FetchTimesOut(paths: set<string>, outDir: string, course: string, page: CoursePage, arrives: bool)
    ensures var s := Fetch(paths, outDir, course, page, arrives);
      s.outcome == DownloadTimedOut <==>
        && FirstZipLink(page.links).Some?
        && LastUnbranded(page.headings).Some?
        && TargetName(course, LastUnbranded(page.headings).value).Some?
        && Join(outDir, TargetName(course, LastUnbranded(page.headings).value).value) !in paths
        && !arrives
        && ProvisionalPath(outDir) !in paths
    ensures var s := Fetch(paths, outDir, course, page, arrives);
      s.outcome == DownloadTimedOut ==>
        s.paths == paths && s.visited == [course, DocumentsUrl(course), FirstZipLink(page.links).value]
  {
    var visited := [course, DocumentsUrl(course)];
    match FirstZipLink(page.links)
    case None =>
    case Some(zip) =>
      match LastUnbranded(page.headings)
      case None =>
      case Some(heading) =>
        match TargetName(course, heading)
        case None =>
        case Some(name) =>
          FetchStores(paths, outDir, course, page, arrives, zip, heading);
          StoreFatalKeepsDisk(paths, outDir, name, zip, visited, arrives);
  }

  /** An archive already on disk is a skip: no download is triggered and nothing
      on disk changes, whether or not a download would have arrived. */
  lemma PresentArchiveIsSkipped(paths: set<string>, outDir: string, course: string, page: CoursePage, arrives: bool, heading: string)
    requires FirstZipLink(page.links).Some?
    requires LastUnbranded(page.headings) == Some(heading)
    requires TargetName(course, heading).Some?
    requires Join(outDir, TargetName(course, heading).value) in paths
    ensures Fetch(paths, outDir, course, page, arrives)
         == Step(AlreadyExists(TargetName(course, heading).value), [course, DocumentsUrl(course)], paths)
  {
  }

  /** A saved archive, when the archive's path is not the provisional one: the
      zip link was visited, the provisional file is gone, the archive is there,
      and every other path is as it was. */
  lemma StoreSaved(paths: set<string>, outDir: string, name: string, zip: string, visited: seq<string>, arrives: bool)
    requires Store(paths, outDir, name, zip, visited, arrives).outcome.Saved?
    requires Join(outDir, name) != ProvisionalPath(outDir)
    ensures var s := Store(paths, outDir, name, zip, visited, arrives);
      && s.visited == visited + [zip]
      && s.outcome.name == name
      && Join(outDir, name) in s.paths
      && ProvisionalPath(outDir) !in s.paths
      && forall p :: p != ProvisionalPath(outDir) && p != Join(outDir, name) ==> (p in s.paths <==> p in paths)
  {
  }

  /** The step saves the archive exactly in the remaining case: a download
      link, a course name and a course id are found, the archive is not on disk
      yet and the provisional file is there after the wait (because the download
      arrived, or because one was already present). Then the browser was sent to
      the zip link after the two course pages, the provisional file is gone, the
      archive is there, and every other path is as it was. */
  lemma FetchSaved(paths: set<string>, outDir: string, course: string, page: CoursePage, arrives: bool, heading: string)
    requires FirstZipLink(page.links).Some? && LastUnbranded(page.headings) == Some(heading)
    requires TargetName(course, heading).Some?
    requires Join(outDir, TargetName(course, heading).value) !in paths
    requires arrives || ProvisionalPath(outDir) in paths
    ensures var s := Fetch(paths, outDir, course, page, arrives);
      var name := TargetName(course, heading).value;
      && s.outcome == Saved(name)
      && s.visited == [course, DocumentsUrl(course), FirstZipLink(page.links).value]
      && Join(outDir, name) in s.paths
      && ProvisionalPath(outDir) !in s.paths
      && forall p :: p != ProvisionalPath(outDir) && p != Join(outDir, name) ==> (p in s.paths <==> p in paths)
  {
    var zip := FirstZipLink(page.links).value;
    var name := TargetName(course, heading).value;
    var visited := [course, DocumentsUrl(course)];
    FetchStores(paths, outDir, course, page, arrives, zip, heading);
    ProvisionalIsNotATarget(outDir, course, heading);
    StoreSaved(paths, outDir, name, zip, visited, arrives);
  }

  /** The file work never removes anything but the provisional file, and when
      it does not abort the run the archive is on disk. */
  lemma StoreKeepsArchives(paths: set<string>, outDir: string, name: string, zip: string, visited: seq<string>, arrives: bool)
    ensures var s := Store(paths, outDir, name, zip, visited, arrives);
      paths - {ProvisionalPath(outDir)} <= s.paths
    ensures var s := Store(paths, outDir, name, zip, visited, arrives);
      !s.outcome.IsFatal() ==> s.outcome.name == name && Join(outDir, name) in s.paths
  {
  }

  /** Whatever happens, only the provisional file can disappear, and a course
      that does not abort the run leaves its archive on disk, at a path that is
      not the provisional one. */
  lemma FetchKeepsArchives(paths: set<string>, outDir: string, course: string, page: CoursePage, arrives: bool)
    ensures var s := Fetch(paths, outDir, course, page, arrives);
      paths - {ProvisionalPath(outDir)} <= s.paths
    ensures var s := Fetch(paths, outDir, course, page, arrives);
      !s.outcome.IsFatal() ==>
        Join(outDir, s.outcome.name) in s.paths && Join(outDir, s.outcome.name) != ProvisionalPath(outDir)
  {
    var visited := [course, DocumentsUrl(course)];
    match FirstZipLink(page.links)
    case None =>
    case Some(zip) =>
      match LastUnbranded(page.headings)
      case None =>
      case Some(heading) =>
        match TargetName(course, heading)
        case None =>
        case Some(name) =>
          StoreKeepsArchives(paths, outDir, name, zip, visited, arrives);
          ProvisionalIsNotATarget(outDir, course, heading);
  }

  /** Running the step again for a course just saved is a skip that changes
      nothing, however the second download would have gone. */
  lemma SecondFetchIsSkip(paths: set<string>, outDir: string, course: string, page: CoursePage, arrives: bool, again: bool, heading: string)
    requires FirstZipLink(page.links).Some? && LastUnbranded(page.headings) == Some(heading)
    requires TargetName(course, heading).Some?
    requires Join(outDir, TargetName(course, heading).value) !in paths
    requires arrives || ProvisionalPath(outDir) in paths
    ensures var s := Fetch(paths, outDir, course, page, arrives);
      Fetch(s.paths, outDir, course, page, again) == Step(AlreadyExists(s.outcome.name), [course, DocumentsUrl(course)], s.paths)
  {
    FetchSaved(paths, outDir, course, page, arrives, heading);
    PresentArchiveIsSkipped(Fetch(paths, outDir, course, page, arrives).paths, outDir, course, page, again, heading);
  }

  /** The download step of the main loop as a function of the disk before it
      and the course: `Fetch` with that course's page and download timing. */
  function FetchStep(outDir: string, site: string -> CoursePage, arrives: string -> bool): (set<string>, string) -> Step
  {
    (before, course) => Fetch(before, outDir, course, site(course), arrives(course))
  }

  /** A run of the main loop, step by step: `order` lists the courses processed,
      each once and in turn; `disks[i]` is the disk before step `i` and
      `disks[|order|]` the disk after the last; every step is `step` on the disk
      the step before it left, and `results` records exactly the outcome of
      every step. */
  ghost predicate IsRun(step: (set<string>, string) -> Step,
                        order: seq<string>, disks: seq<set<string>>, results: map<string, Outcome>)
  {
    && |disks| == |order| + 1
    && (forall i, j :: 0 <= i < j < |order| ==> order[i] != order[j])
    && (forall c :: c in results <==> c in order)
    && (forall i {:trigger step(disks[i], order[i])} :: 0 <= i < |order| ==>
          step(disks[i], order[i]).outcome == results[order[i]] && step(disks[i], order[i]).paths == disks[i + 1])
  }

  /** A run extends by one step for a course not yet processed: the step runs
      on the disk the run left and its outcome is recorded. */
  lemma RunSnoc(step: (set<string>, string) -> Step,
                order: seq<string>, disks: seq<set<string>>, results: map<string, Outcome>, course: string)
    requires IsRun(step, order, disks, results)
    requires course !in results
    ensures var s := step(disks[|order|], course);
      IsRun(step, order + [course], disks + [s.paths], results[course := s.outcome])
  {
    var s := step(disks[|order|], course);
    var order', disks', results' := order + [course], disks + [s.paths], results[course := s.outcome];
    forall c
      ensures c in results' <==> c in order'
    {
      assert c in order' <==> c in order || c == course;
    }
    forall i, j | 0 <= i < j < |order'|
      ensures order'[i] != order'[j]
    {
      assert order'[i] == order[i] && order[i] in results;
      if j < |order| {
        assert order'[j] == order[j];
      }
    }
    forall i | 0 <= i < |order'|
      ensures step(disks'[i], order'[i]).outcome == results'[order'[i]]
      ensures step(disks'[i], order'[i]).paths == disks'[i + 1]
    {
      if i < |order| {
        assert order'[i] == order[i] && disks'[i] == disks[i] && disks'[i + 1] == disks[i + 1];
        assert order[i] in results;
      } else {
        assert order'[i] == course && disks'[i] == disks[|order|];
      }
    }
  }

  /** The disk under the output directory, with the operations the archiver
      performs on it. */
  class Disk {
    var paths: set<string>

    constructor (initial: set<string>)
      ensures paths == initial
    {
      paths := initial;
    }

    /** `os.path.exists`. */
    method Exists(path: string) returns (b: bool)
      ensures b <==> path in paths
    {
      b := path in paths;
    }

    /** `os.rename`: moves `src` to `dst`, replacing `dst`; fails when `src` does
        not exist. */
    method Rename(src: string, dst: string) returns (ok: bool)
      modifies this
      ensures ok <==> src in old(paths)
      ensures paths == if ok then old(paths) - {src} + {dst} else old(paths)
    {
      ok := src in paths;
      if ok {
        paths := paths - {src} + {dst};
      }
    }

    /** The wait for the browser's download: when it arrives the browser writes
        `src`; the wait ends well exactly when `src` then exists. */
    method AwaitDownload(src: string, arrives: bool) returns (appeared: bool)
      modifies this
      ensures paths == if arrives then old(paths) + {src} else old(paths)
      ensures appeared <==> src in paths
    {
      if arrives {
        paths := paths + {src};
      }
      appeared := src in paths;
    }

    /** `download(driver, course)`: the course page, the documents page, the scans
        and the file work. */
    method Download(outDir: string, course: string, page: CoursePage, arrives: bool)
      returns (outcome: Outcome, visited: seq<string>)
      modifies this
      ensures Step(outcome, visited, paths) == Fetch(old(paths), outDir, course, page, arrives)
    {
      var files := DocumentsUrl(course);
      visited := [course, files];

      var zip := FindZipLink(page.links);
      if zip.None? {
        outcome := ZipLinkNotFound;
        return;
      }

      var heading := FindCourseName(page.headings);
      if heading.None? {
        outcome := CourseNameMissing;
        return;
      }

      var newName := TargetName(course, heading.value);
      if newName.None? {
        outcome := CourseIdMissing;
        return;
      }

      FetchStores(paths, outDir, course, page, arrives, zip.value, heading.value);
      var target := Join(outDir, newName.value);
      var present := Exists(target);
      if present {
        outcome := AlreadyExists(newName.value);
        return;
      }

      visited := visited + [zip.value];
      var src := ProvisionalPath(outDir);
      var appeared := AwaitDownload(src, arrives);
      if !appeared {
        outcome := DownloadTimedOut;
        return;
      }

      var moved := Rename(src, target);
      outcome := Saved(newName.value);
    }

    /** One turn of the main loop: the download step for `course`, with what
        the loop needs to know about it. */
    method Visit(outDir: string, course: string, site: string -> CoursePage, arrives: string -> bool)
      returns (outcome: Outcome)
      modifies this
      ensures FetchStep(outDir, site, arrives)(old(paths), course).outcome == outcome
      ensures FetchStep(outDir, site, arrives)(old(paths), course).paths == paths
      ensures old(paths) - {ProvisionalPath(outDir)} <= paths
      ensures !outcome.IsFatal() ==>
        Join(outDir, outcome.name) in paths && Join(outDir, outcome.name) != ProvisionalPath(outDir)
    {
      ghost var before := paths;
      var visited;
      outcome, visited := Download(outDir, course, site(course), arrives(course));
      FetchKeepsArchives(before, outDir, course, site(course), arrives(course));
      assert FetchStep(outDir, site, arrives)(before, course) == Fetch(before, outDir, course, site(course), arrives(course));
    }

    /** The main program's loop over the courses `get_courses` found, after
        the output directory is normalised: the download step for each course,
        in an order nothing fixes, stopping at the first course that aborts the
        run. `site` gives each course's documents page and `arrives` whether its
        download lands in time. `results` records the outcome of every course
        processed and `failed` the course the run aborted on. `order` lists the
        courses processed, in turn, and `disks` the disk before each step and
        after the last: every step is the download step on the disk the step
        before it left. The exit status is 0 exactly when no course aborted the
        run; then every course was processed and every course's archive is on
        disk. Nothing on disk but `documents.zip` is ever removed. */
    method RunAll(absOutDir: string, courses: set<string>, site: string -> CoursePage, arrives: string -> bool)
      returns (status: int, results: map<string, Outcome>, failed: Option<string>,
               ghost order: seq<string>, ghost disks: seq<set<string>>)
      modifies this
      ensures status == (if failed.Some? then 1 else 0)
      ensures results.Keys <= courses
      ensures IsRun(FetchStep(NormaliseOutDir(absOutDir), site, arrives), order, disks, results)
      ensures disks[0] == old(paths) && disks[|order|] == paths
      ensures failed.Some? ==> |order| > 0 && failed.value == order[|order| - 1] && results[failed.value].IsFatal()
      ensures forall c :: c in results && Some(c) != failed ==> !results[c].IsFatal()
      ensures failed.None? ==> results.Keys == courses
      ensures old(paths) - {ProvisionalPath(NormaliseOutDir(absOutDir))} <= paths
      ensures failed.None? ==> forall c :: c in results ==>
        !results[c].IsFatal() && Join(NormaliseOutDir(absOutDir), results[c].name) in paths
    {
      var outDir := NormaliseOutDir(absOutDir);
      var todo := courses;
      status, results, failed := 0, map[], None;
      order, disks := [], [paths];
      while todo != {}
        invariant todo <= courses && results.Keys == courses - todo
        invariant IsRun(FetchStep(outDir, site, arrives), order, disks, results)
        invariant disks[0] == old(paths) && disks[|order|] == paths
        invariant forall c :: c in results ==> !results[c].IsFatal()
        invariant old(paths) - {ProvisionalPath(outDir)} <= paths
        invariant forall c :: c in results ==>
          Join(outDir, results[c].name) in paths && Join(outDir, results[c].name) != ProvisionalPath(outDir)
        decreases todo
      {
        var course :| course in todo;
        var outcome := Visit(outDir, course, site, arrives);
        RunSnoc(FetchStep(outDir, site, arrives), order, disks, results, course);
        ghost var earlier := results;
        results := results[course := outcome];
        order, disks := order + [course], disks + [paths];
        todo := todo - {course};
        if outcome.IsFatal() {
          assert forall c :: c in results && c != course ==> c in earlier && results[c] == earlier[c];
          status, failed := 1, Some(course);
          return;
        }
      }
    }
  }
}
