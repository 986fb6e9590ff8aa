/** `parse_resume_for_student` of core/views.py: choose the extractor by
    the resume's file extension, parse the extracted text and write the
    findings into the profile. The extracted text, the language model's
    entities and sentences and whether the model is loaded are inputs. */
module ResumeUpdate {
  import opened Text
  import opened Profile
  import opened Resume

  /** The position of the last `c` in `s`, if any (`str.rfind`). */
  function LastIndex(s: string, c: char): (r: Option<nat>)
    ensures r.Some? ==> r.value < |s| && s[r.value] == c && forall k | r.value < k < |s| :: s[k] != c
    ensures r.None? ==> forall k | 0 <= k < |s| :: s[k] != c
  {
    if |s| == 0 then None
    else if s[|s| - 1] == c then Some(|s| - 1)
    else LastIndex(s[..|s| - 1], c)
  }

  /** Where `posixpath.splitext` cuts `path`: at the last dot when it lies
      after the last slash and something other than a dot comes before it
      in the file name, else at the end (no extension; ".bashrc" has none). */
  function ExtensionStart(path: string): (i: nat)
    ensures i <= |path|
    ensures i < |path| ==> path[i] == '.'
  {
    var slash := match LastIndex(path, '/') case None => -1 case Some(k) => k as int;
    match LastIndex(path, '.')
    case None => |path|
    case Some(dot) =>
      if dot as int > slash && exists k | slash + 1 <= k < dot :: path[k] != '.' then dot else |path|
  }

  /** `os.path.splitext(path)[1]`. */
  function Extension(path: string): (e: string)
  {
    path[ExtensionStart(path)..]
  }

  /** The split loses nothing; an extension is a dot followed by neither a
      slash nor another dot; a name with no dot has none. */
  lemma ExtensionShape(path: string)
    ensures path[..ExtensionStart(path)] + Extension(path) == path
    ensures Extension(path) == "" || Extension(path)[0] == '.'
    ensures forall k | 0 <= k < |Extension(path)| :: Extension(path)[k] != '/'
    ensures forall k | 1 <= k < |Extension(path)| :: Extension(path)[k] != '.'
    ensures (forall k | 0 <= k < |path| :: path[k] != '.') ==> Extension(path) == ""
  {
    var i := ExtensionStart(path);
    if i < |path| {
      var dot := LastIndex(path, '.').value;
      assert i == dot;
      match LastIndex(path, '/')
      case None =>
      case Some(slash) =>
    }
  }

  /** A plain "name.pdf" file name has the extension ".pdf". */
  lemma PdfName(stem: string)
    requires |stem| > 0 && forall k | 0 <= k < |stem| :: stem[k] != '/' && stem[k] != '.'
    ensures Extension(stem + ".pdf") == ".pdf"
  {
    var path := stem + ".pdf";
    assert path[|stem|] == '.' && path[|stem| + 1..] == "pdf";
    assert LastIndex(path, '.') == Some(|stem|);
    assert LastIndex(path, '/').None?;
    assert path[0] != '.';
  }

  datatype FileKind = Pdf | Docx | Unsupported

  /** The extension decides the extractor, compared without case. */
  function KindOf(path: string): (k: FileKind)
    ensures k == Pdf <==> LowerStr(Extension(path)) == ".pdf"
    ensures k == Docx <==> LowerStr(Extension(path)) == ".docx"
  {
    var ext := LowerStr(Extension(path));
    if ext == ".pdf" then Pdf else if ext == ".docx" then Docx else Unsupported
  }

  /** What happened to the profile. */
  datatype UpdateOutcome = NoResume | UnsupportedFile | Parsed

  /** Copies the parsed fields into the profile: the four text fields are
      always overwritten (with the empty string too), the CGPA and the
      backlog count only when a value was found. */
  function ApplyParsed(p: StudentProfile, d: ParsedResume): (q: StudentProfile)
    ensures q.skills == d.skills && q.education == d.education && q.experience == d.experience && q.phone == d.phone
    ensures q.cgpa == (if d.cgpa.Some? then d.cgpa else p.cgpa)
    ensures q.backlogs == (if d.backlogs.Some? then d.backlogs else p.backlogs)
    ensures q.branch == p.branch && q.resumeFile == p.resumeFile && q.readiness == p.readiness
  {
    p.(skills := d.skills, education := d.education, experience := d.experience, phone := d.phone,
       cgpa := if d.cgpa.Some? then d.cgpa else p.cgpa,
       backlogs := if d.backlogs.Some? then d.backlogs else p.backlogs)
  }

  /** `parse_resume_for_student`: `text` is what the PDF or DOCX extractor
      returns for the uploaded file. Without a resume, or with a file of
      another type, the profile stays as it was. */
  function ParseResumeForStudent(p: StudentProfile, text: string, entities: seq<Entity>, sentences: seq<string>, modelLoaded: bool): (r: (StudentProfile, UpdateOutcome))
    ensures p.resumeFile == "" ==> r == (p, NoResume)
    ensures p.resumeFile != "" && KindOf(p.resumeFile) == Unsupported ==> r == (p, UnsupportedFile)
    ensures r.1 == Parsed <==> p.resumeFile != "" && KindOf(p.resumeFile) != Unsupported
    ensures r.1 == Parsed ==> r.0 == ApplyParsed(p, ParseResumeText(text, entities, sentences, modelLoaded))
  {
    if p.resumeFile == "" then (p, NoResume)
    else if KindOf(p.resumeFile) == Unsupported then (p, UnsupportedFile)
    else (ApplyParsed(p, ParseResumeText(text, entities, sentences, modelLoaded)), Parsed)
  }

  /** A parse keeps a CGPA in range: a found value is between 0 and 10 and
      a missing one leaves the old value. */
  lemma {:induction false} ParsedCgpaInRange(p: StudentProfile, text: string, entities: seq<Entity>, sentences: seq<string>, modelLoaded: bool)
    requires p.cgpa.None? || 0 <= p.cgpa.value <= 1000
    ensures var q := ParseResumeForStudent(p, text, entities, sentences, modelLoaded).0;
      q.cgpa.None? || 0 <= q.cgpa.value <= 1000
  {
    var out := ParseResumeForStudent(p, text, entities, sentences, modelLoaded);
    if out.1 == Parsed {
      var d := ParseResumeText(text, entities, sentences, modelLoaded);
      assert out.0 == ApplyParsed(p, d);
      assert d.cgpa.Some? ==> 0 <= d.cgpa.value <= 1000;
    } else {
      assert out.0 == p;
    }
  }

  /** Without the language model a parse blanks the four text fields but
      keeps the CGPA and the backlog count. */
  lemma WithoutModelBlanks(p: StudentProfile, text: string, entities: seq<Entity>, sentences: seq<string>)
    requires p.resumeFile != "" && KindOf(p.resumeFile) != Unsupported
    ensures var q := ParseResumeForStudent(p, text, entities, sentences, false).0;
      && q == p.(skills := "", education := "", experience := "", phone := "")
  {
  }

  /** Parsing the same resume again changes nothing more. */
  lemma ParseTwiceSameAsOnce(p: StudentProfile, text: string, entities: seq<Entity>, sentences: seq<string>, modelLoaded: bool)
    ensures var once := ParseResumeForStudent(p, text, entities, sentences, modelLoaded);
      ParseResumeForStudent(once.0, text, entities, sentences, modelLoaded) == once
  {
  }
}
