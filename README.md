# MinervArchiver, modelled in Dafny

MinervArchiver logs in to the Minerva learning portal of Ghent University and
drives a Chrome browser. It collects the course links on the curriculum page.
For every course it opens the course's documents page and clicks the link that
zips up all the documents. It then waits for the browser to save
`documents.zip` in the output directory. Finally it renames that file to
`"<course id> - <cleaned course name>.zip"`, unless an archive of that name
already exists, in which case the course is skipped.

This project models the deterministic core of that program. The browser is
replaced by the contents of the pages it would show. The output directory is a
set of full paths. Whether a download lands before the wait expires is a
boolean input.

- `option.dfy` (module `Optional`): `Option`, for absent `href` attributes and
  searches that find nothing.
- `strings.dfy` (module `Strings`): the part of Python's `str` the program uses:
  `in`, `index`, `replace`, `rstrip`, `lower` and the ASCII character classes.
  A `find` from a given position underlies `in`, `index` and `replace`.
- `links.dfy` (module `Links`): the three scans over a loaded page (course
  links, the archive link, the course-name heading). Each scan is a loop
  proved equal to a specification function, with lemmas that pin that
  function down.
- `naming.dfy` (module `Naming`): the documents-page URL, the sanitised course
  name, the course id, the archive's file name, the normalised output
  directory and `os.path.join`.
- `archiver.dfy` (module `Archiver`): the per-course download step as a
  specification function `Fetch` on the set of paths. A class `Disk` holds
  the paths on disk and performs the step with imperative `Download` and the
  main loop with `RunAll`.

Two details of the code fix what the model does:

- The course name is the LAST `<h1>` whose lower-cased text does not contain
  `minerva`. The loop at main.py:90-92 has no `break`, so a later such heading
  overwrites an earlier one.
- The documents page is the course URL with every `course_home` replaced by
  `document` (singular), as main.py:70 does.

The program's failure paths become values of `Archiver.Outcome`. These are:

- the explicit `exit(1)` when no archive link exists;
- the `TypeError` from iterating a missing course name;
- the `ValueError` from `str.index` when the URL has no `cidReq`;
- the timeout of the 1800-second download wait.

Each of them ends the whole run with exit status 1.

## Model

| member | source | states |
|---|---|---|
| Strings.IsAlpha | main.py:96 | `str.isalpha` on one character: an ASCII letter, upper- or lower-case |
| Strings.IsDigit | main.py:96 | `str.isdigit` on one character: an ASCII digit |
| Strings.IsSpace | main.py:96 | the whitespace the argument-less `rstrip()` removes: space, tab, line feed, vertical tab, form feed, carriage return and the separators 0x1C to 0x1F |
| Strings.FindFrom | main.py:58 | the result is the least index at or after `from` where the pattern occurs; `None` exactly when no occurrence starts there or later |
| Strings.IndexOf | main.py:97 | the result is the first occurrence of the pattern; `None` (where `str.index` raises) exactly when the pattern occurs nowhere |
| Strings.Contains | main.py:58 | Python's `in` on strings, used by the scans at main.py:58, 80 and 91; `FindFrom` and `IndexOf` specify where the pattern occurs |
| Strings.Lower | main.py:91 | ASCII `str.lower` letter by letter, used again at main.py:97; `LowerIsSubsequence` and the contracts of `SanitisedName` and `LowerNameChars` state what it produces |
| Strings.ReplaceFrom | main.py:70 | the scan of `str.replace` from a position; `ReplaceFromWithoutMatch` and `ReplaceFromAtMatch` specify it |
| Strings.Replace | main.py:70 | `str.replace`, the scan from the start; specified through `ReplaceFrom` |
| Strings.ReplaceFromWithoutMatch | main.py:70 | where `find` from the scan position reports no occurrence, the rest of the string is copied unchanged |
| Strings.ReplaceFromAtMatch | main.py:70 | where `find` from the scan position reports an occurrence, the text before it is copied, the occurrence becomes the replacement and the scan resumes right after it, so occurrences are replaced left to right without overlap |
| Strings.RStrip | main.py:96 | the result is a prefix of the input; its last character is not stripped; every removed character is one that is stripped |
| Strings.PrefixIsSubsequence | main.py:95-96 | a prefix of a subsequence of a string is a subsequence of it |
| Strings.LowerIsSubsequence | main.py:97 | lower-casing preserves the subsequence relation |
| Links.IsCourseLink | main.py:58 | an `href` qualifies as a course when it is present and contains `course_home.php?cidReq=` |
| Links.IsZipLink | main.py:80 | an `href` qualifies as the archive link when it is present and contains `downloadfolder` |
| Links.IsBranded | main.py:91 | a heading is the portal's own when its lower-cased text contains `minerva` |
| Links.CollectCourses | main.py:54-61 | the loop collects exactly the set of distinct qualifying `href`s, and no more courses than the page has links |
| Links.CourseSet | main.py:54-61 | the set of qualifying `href`s of a page; specified by `CourseSetMembers`, `CourseSetSnoc` and `CourseSetSize` |
| Links.CourseSetMembers | main.py:56-59 | a string is a course exactly when it is the `href` of a link of the page and contains `course_home.php?cidReq=` |
| Links.CourseSetSnoc | main.py:56-59 | one more link adds its `href` to the courses when it qualifies, and nothing otherwise |
| Links.CourseSetSize | main.py:54-61 | repeated `href`s are one course, so there are never more courses than links |
| Links.FirstZipLink | main.py:76-83 | `None` exactly when no `href` contains `downloadfolder`; otherwise a link of the page containing it |
| Links.FirstZipLinkIsFirst | main.py:78-82 | the archive link chosen is the first qualifying one in page order |
| Links.FindZipLink | main.py:76-86 | the loop with its `break` returns exactly the first qualifying link |
| Links.LastUnbranded | main.py:89-92 | `None` exactly when every heading's lower-cased text contains `minerva`; otherwise a heading of the page that does not |
| Links.LastUnbrandedIsLast | main.py:90-92 | the course name is the last unbranded heading, since later matches overwrite earlier ones |
| Links.FindCourseName | main.py:89-92 | the heading loop returns exactly the last unbranded heading |
| Naming.DocumentsUrl | main.py:70 | the documents-page URL; specified by `DocumentsUrlWithoutCourseHome` and `DocumentsUrlRewritesFirst` |
| Naming.DocumentsUrlWithoutCourseHome | main.py:70 | a course URL without `course_home` is its own documents URL |
| Naming.DocumentsUrlRewritesFirst | main.py:70 | the first `course_home` becomes `document` and the rewrite goes on from right after it |
| Naming.IsNameChar | main.py:95-96 | the filter's condition: a letter, a digit or a space |
| Naming.KeepNameChars | main.py:95-96 | only letters, digits and spaces are kept, in input order; a name made only of them is kept whole |
| Naming.KeepNameCharsCounts | main.py:95-96 | every letter, digit and space is kept as often as it occurs, and every other character is dropped |
| Naming.CleanName | main.py:95-96 | the cleaned name has only letters, digits and spaces, does not end in a space, and comes from the heading by deleting characters; it is a prefix of the kept characters, and what `rstrip` removed from them is spaces only |
| Naming.SanitisedName | main.py:95-97 | the cleaned lower-cased name has only lower-case letters, digits and spaces, does not end in a space, and comes from the lower-cased heading by deleting characters |
| Naming.SanitisedNameIdempotent | main.py:95-97 | sanitising a sanitised name changes nothing |
| Naming.SliceFrom | main.py:97 | Python's `s[k:]` is the suffix of length `len(s) - k`, or empty past the end |
| Naming.CourseId | main.py:97 | the id is absent exactly when the URL has no `cidReq`; otherwise it is the suffix of the URL that starts 7 characters after the first `cidReq`, or empty when the URL ends sooner |
| Naming.TargetName | main.py:97 | a file name exists exactly when the course URL contains `cidReq` |
| Naming.TargetNameOfCourseUrl | main.py:97 | for a URL `prefix + "cidReq=" + id` with no earlier `cidReq`, the file name is `id + " - " + sanitised name + ".zip"` |
| Naming.TargetNameOfSanitisedHeading | main.py:95-97 | a heading and its sanitised form give the same file name |
| Naming.NormaliseOutDir | main.py:123 | the directory ends in exactly one `/` (or is `/`), and only trailing slashes of the input were removed |
| Naming.NormaliseOutDirIdempotent | main.py:123 | normalising a normalised directory changes nothing |
| Naming.Join | main.py:99-112 | `os.path.join` for the archive and provisional paths at main.py:99, 107 and 112; `JoinUnderOutDir` specifies it under the output directory |
| Naming.JoinUnderOutDir | main.py:99 | under a normalised output directory `os.path.join` with a relative name is concatenation |
| Naming.ShapedNameIsNotProvisional | main.py:97 | a name of the shape `"<id> - <name>.zip"` with no `/` in the name is never `documents.zip` under a directory prefix |
| Naming.ProvisionalIsNotATarget | main.py:107-112 | no archive path is the provisional download path, so a rename never lands on `documents.zip` |
| Archiver.Outcome.IsFatal | main.py:84-109 | the outcomes that end the run with status 1 are the missing archive link (main.py:84-86), the missing course name and the missing course id (main.py:95-97) and the timed-out wait (main.py:108-109); an archive found on disk or saved is not |
| Archiver.ProvisionalPath | main.py:107 | the path `documents.zip` under the output directory; `Naming.ProvisionalIsNotATarget` shows it is never an archive path |
| Archiver.Fetch | main.py:64-113 | the download step as a value: outcome, visited URLs and new disk; specified by `FetchWithoutZipLink`, `FetchWithoutCourseName`, `FetchWithoutCourseId`, `FetchTimesOut`, `PresentArchiveIsSkipped`, `FetchSaved`, `FetchFatalKeepsDisk`, `FetchKeepsArchives` and `SecondFetchIsSkip` |
| Archiver.Store | main.py:99-112 | the file work once the archive name is known; specified by `StoreFindsLink`, `StoreFatalKeepsDisk`, `StoreSaved` and `StoreKeepsArchives` |
| Archiver.FetchStores | main.py:76-99 | once the link, the course name and the id are found, the step is the file work for that archive name, after visiting the course page and the documents page |
| Archiver.StoreFindsLink | main.py:99-112 | the file work never reports a missing download link |
| Archiver.FetchWithoutZipLink | main.py:84-86 | the step aborts with the zip-link error exactly when no link qualifies, before touching the disk or visiting anything beyond the two course pages |
| Archiver.FetchWithoutCourseName | main.py:89-97 | the step fails for want of a course name exactly when a link is found and every heading is branded; the disk is then unchanged and only the two course pages were visited |
| Archiver.FetchWithoutCourseId | main.py:97 | the step fails on `str.index` exactly when a link and a course name are found and the URL has no `cidReq`; the disk is then unchanged and only the two course pages were visited |
| Archiver.FetchTimesOut | main.py:99-109 | the wait times out exactly when link, name and id are found, the archive is not on disk, the download does not land and no `documents.zip` is present; the zip link was then visited after the two course pages and the disk is unchanged |
| Archiver.StoreFatalKeepsDisk | main.py:99-112 | in the model, the only way the file work aborts is the download timeout, and then the disk is unchanged |
| Archiver.FetchFatalKeepsDisk | main.py:84-109 | every step that aborts the run leaves the disk exactly as it was |
| Archiver.PresentArchiveIsSkipped | main.py:99-101 | an archive already on disk is a skip: no download is triggered and nothing on disk changes |
| Archiver.StoreSaved | main.py:103-112 | a saved archive follows a visit to the zip link; the archive exists, the provisional file does not, and every other path is as before |
| Archiver.FetchSaved | main.py:99-113 | when a link, a course name and a course id are found, the archive is not on disk and the provisional file is there after the wait, the step saves the archive: the zip link is visited after the two course pages, the archive exists, `documents.zip` does not, and every other path is as before |
| Archiver.StoreKeepsArchives | main.py:99-112 | the file work removes no path but the provisional one, and a non-aborting step leaves the named archive on disk |
| Archiver.FetchKeepsArchives | main.py:64-113 | a step removes at most `documents.zip`, and a course that does not abort leaves its archive on disk at a path other than `documents.zip` |
| Archiver.SecondFetchIsSkip | main.py:99-113 | running the step again for a course it has just saved is a skip that changes nothing, however the second download would have gone |
| Archiver.FetchStep | main.py:148-150 | the step of the main loop for a course on a given disk is `Fetch` with that course's page and download timing |
| Archiver.IsRun | main.py:148-150 | a run processes each course at most once, in turn; each step is the download step on the disk the previous step left; the results record exactly the processed courses and their outcomes |
| Archiver.RunSnoc | main.py:148-150 | processing one more, new course extends a run by that course's step on the disk the run left |
| Archiver.Disk.Exists | main.py:99 | `os.path.exists` is true exactly for paths on disk |
| Archiver.Disk.Rename | main.py:112 | `os.rename` succeeds exactly when the source exists, and then moves it onto the destination |
| Archiver.Disk.AwaitDownload | main.py:106-109 | the wait ends well exactly when the provisional file exists once the download has or has not landed |
| Archiver.Disk.Download | main.py:64-113 | the imperative download step produces exactly the outcome, the visited URLs and the disk that `Fetch` specifies |
| Archiver.Disk.Visit | main.py:150 | one turn of the loop yields the outcome and disk of the download step for that course; only `documents.zip` may disappear, and a course that does not abort leaves its archive on disk |
| Archiver.Disk.RunAll | main.py:148-150 | the loop is a run (`IsRun`) from the initial disk to the final one, over the courses found; the exit status is 1 exactly when the last course processed aborted, and no other course did; with status 0 every course was processed and every course's archive is on disk; nothing but `documents.zip` is ever removed |

## Left out

- Logging in, `ask_user` and the password prompt are left out. They are interactive input and have no bearing on the archives.
- Chrome setup and the browser are left out. Each page is given by its `href`s and `<h1>` texts, and `get_attribute` returns the same value on both of its calls.
- The 10-second navigation waits are left out, and so are their timeouts. Navigation is assumed to succeed.
- The 1800-second download wait is the boolean input `arrives`. A stale `documents.zip` already on disk satisfies the wait too.
- Logging output is left out.
- The check on the number of command-line arguments is left out.
- `os.path.abspath` is left out. `RunAll` receives the absolute path.
- Archiver.Disk.RunAll: takes the set of courses that `get_courses` found as a parameter. That set is specified separately by `Links.CollectCourses`.
- Archiver.Disk.RunAll: iterates over the courses in an arbitrary order, as Python's set iteration does. Its contract does not fix that order.
- Character classes, `lower` and `rstrip` follow their ASCII definitions. Python's Unicode letters, digits, case mappings and whitespace are not modelled.
- Exceptions the model does not name are left out.
- Archiver.Disk.Rename: `os.rename` also fails when the target's directory does not exist. That happens, for example, when the course id contains `/`, so that the archive path points into a missing subdirectory. The model has no directories, and that rename succeeds.
- Archiver.Store: a rename into a missing directory is modelled as a successful save. The program instead ends with `FileNotFoundError` and exit status 1.
- Archiver.Disk.AwaitDownload: a download is either on disk when its own wait ends or never lands. A download still in flight when a stale `documents.zip` ends the wait early is not modelled. In the program it lands during a later course's step.
- Archiver.Store: because such a late download is not modelled, its effect on later steps is not represented either: the stale file saved under this course's name, the real archive saved under a later course's name, or a stray `documents.zip` left behind.
