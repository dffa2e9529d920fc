/** The value-level logic of the DraftSathi landing page: the domain table and
    its lookup, the upload filename check, the name and content of the
    downloaded artefact, the fixed review payload, the badge shown for a
    severity, and the schedule of progress values of the simulated review. */
module Landing {
  import opened JsString

  datatype Option<+T> = None | Some(value: T)

  /** A browser `File`, reduced to what the page reads from it. */
  datatype File = File(name: string, size: nat)

  // ---------------------------------------------------------------- domains

  /** A domain card; its icon is markup and is not modelled. */
  datatype Domain = Domain(id: string, name: string, description: string, color: string)

  const Domains: seq<Domain> := [
    Domain("healthcare", "Healthcare",
      "Medical contracts, compliance documents, and healthcare agreements",
      "from-red-100 to-pink-100"),
    Domain("land-registry", "Land Registry",
      "Property deeds, land agreements, and real estate documentation",
      "from-green-100 to-emerald-100")
  ]

  /** `ds.find(d => d.id === id)`: the first domain whose id is `id`, if any. */
  function FindDomain(ds: seq<Domain>, id: string): (r: Option<Domain>)
    ensures r.None? <==> forall d :: d in ds ==> d.id != id
    ensures r.Some? ==> exists k :: 0 <= k < |ds| && ds[k] == r.value && r.value.id == id &&
                          forall j :: 0 <= j < k ==> ds[j].id != id
    decreases |ds|
  {
    if ds == [] then None
    else if ds[0].id == id then Some(ds[0])
    else
      var r := FindDomain(ds[1..], id);
      assert forall d :: d in ds[1..] ==> d in ds;
      if r.Some? then
        var k :| 0 <= k < |ds[1..]| && ds[1..][k] == r.value && r.value.id == id &&
                 forall j :: 0 <= j < k ==> ds[1..][j].id != id;
        assert ds[k + 1] == r.value;
        assert forall j :: 0 <= j < k + 1 ==> ds[j].id != id by {
          forall j | 0 <= j < k + 1 ensures ds[j].id != id {
            if j > 0 { assert ds[j] == ds[1..][j - 1]; }
          }
        }
        r
      else r
  }

  /** The heading of the upload view,
      `domains.find(d => d.id === selectedDomain)?.name`. */
  function SelectedDomainName(selected: Option<string>): (r: Option<string>)
    ensures r.Some? <==> selected.Some? && exists d :: d in Domains && d.id == selected.value
    ensures r.Some? ==> exists d :: d in Domains && d.id == selected.value && d.name == r.value
  {
    match selected
    case None => None
    case Some(id) =>
      match FindDomain(Domains, id)
      case None => None
      case Some(d) => Some(d.name)
  }

  /** The table's ids are distinct, the two ids find their own cards, and no
      other id finds anything. */
  lemma DomainTable(id: string)
    ensures Domains[0].id != Domains[1].id
    ensures FindDomain(Domains, "healthcare") == Some(Domains[0])
    ensures FindDomain(Domains, "land-registry") == Some(Domains[1])
    ensures id != "healthcare" && id != "land-registry" ==> FindDomain(Domains, id) == None
    ensures SelectedDomainName(Some("healthcare")) == Some("Healthcare")
    ensures SelectedDomainName(Some("land-registry")) == Some("Land Registry")
  {
  }

  // ---------------------------------------------------------- upload check

  const AllowedTypes: seq<string> := [".doc", ".docx", ".pdf"]
  const RejectionMessage: string := "Please upload only .doc, .docx, or .pdf files"

  /** What `handleFileUpload` does with a file: keep it, or show an alert. */
  datatype UploadOutcome = Accepted | Rejected(alert: string)

  /** `'.' + name.split('.').pop().toLowerCase()`: a dot followed by the
      lower-cased text after the last dot of `name`, or by all of `name`
      lower-cased when it has no dot. */
  function FileExtension(name: string): (ext: string)
    ensures |ext| >= 1 && ext[0] == '.'
    ensures '.' !in ext[1..]
    ensures |ext| - 1 <= |name| && ext[1..] == ToLower(name[|name| - (|ext| - 1)..])
    ensures |ext| - 1 == |name| || name[|name| - |ext|] == '.'
  {
    var parts := Split(name, '.');
    LastPiece(name, '.');
    var ext := "." + ToLower(parts[|parts| - 1]);
    assert ext[1..] == ToLower(parts[|parts| - 1]);
    assert forall i :: 0 <= i < |ext| - 1 ==> ext[1..][i] == LowerChar(parts[|parts| - 1][i]);
    ext
  }

  /** `allowedTypes.includes(fileExtension)`. */
  predicate IsAllowedUpload(name: string)
    ensures IsAllowedUpload(name) <==>
      FileExtension(name) == ".doc" || FileExtension(name) == ".docx" || FileExtension(name) == ".pdf"
  {
    FileExtension(name) in AllowedTypes
  }

  /** `t` is `base`, or ends with a dot followed by `base`. */
  predicate EndsWithPiece(t: string, base: string) {
    t == base || (|t| > |base| && t[|t| - |base| - 1] == '.' && t[|t| - |base|..] == base)
  }

  lemma ToLowerSuffix(s: string, a: int)
    requires 0 <= a <= |s|
    ensures ToLower(s[a..]) == ToLower(s)[a..]
  {
  }

  /** The extension is `.base` exactly when the lower-cased name is `base`
      or ends with `.base`. */
  lemma {:induction false} ExtensionIs(name: string, base: string)
    requires '.' !in base
    ensures FileExtension(name) == "." + base <==> EndsWithPiece(ToLower(name), base)
  {
    var ext := FileExtension(name);
    var n, m := |name|, |ext| - 1;
    var low := ToLower(name);
    ToLowerSuffix(name, n - m);
    assert ext[1..] == low[n - m..];
    assert ext == [ext[0]] + ext[1..];
    forall i | 0 <= i < n ensures (low[i] == '.') <==> (name[i] == '.') {
      ToLowerKeepsSeparator(name, '.', i);
    }
    if ext == "." + base {
      assert ext[1..] == base;
    }
    if EndsWithPiece(low, base) {
      if low == base {
        if m < n {
          assert false;
        }
      } else {
        if m > |base| {
          assert false;
        } else if m < |base| {
          assert false;
        }
      }
    }
  }

  /** The upload is accepted exactly when the lower-cased name is `doc`,
      `docx` or `pdf`, or ends with `.doc`, `.docx` or `.pdf`. */
  lemma AllowedUploadIff(name: string)
    ensures IsAllowedUpload(name) <==>
      EndsWithPiece(ToLower(name), "doc") ||
      EndsWithPiece(ToLower(name), "docx") ||
      EndsWithPiece(ToLower(name), "pdf")
  {
    assert ".doc" == "." + "doc";
    assert ".docx" == "." + "docx";
    assert ".pdf" == "." + "pdf";
    ExtensionIs(name, "doc");
    ExtensionIs(name, "docx");
    ExtensionIs(name, "pdf");
  }

  /** Only the text after the last dot counts, whatever comes before it. */
  lemma {:induction false} ExtensionOfLastSegment(prefix: string, last: string)
    requires '.' !in last
    ensures FileExtension(prefix + "." + last) == "." + ToLower(last)
  {
    var name := prefix + "." + last;
    var ext := FileExtension(name);
    var n, m := |name|, |ext| - 1;
    assert name[|prefix|] == '.';
    assert name[|prefix| + 1..] == last;
    ToLowerSuffix(name, n - m);
    forall i | 0 <= i < n ensures (ToLower(name)[i] == '.') <==> (name[i] == '.') {
      ToLowerKeepsSeparator(name, '.', i);
    }
    if m > |last| {
      assert false;
    } else if m < |last| {
      assert false;
    }
    ToLowerSuffix(name, n - m);
    assert ext == [ext[0]] + ext[1..];
  }

  /** `a.pdf.exe`, and any other name ending in `.pdf.exe`, is rejected. */
  lemma OnlyLastSegmentCounts(prefix: string)
    ensures !IsAllowedUpload(prefix + ".pdf.exe")
  {
    ExtensionOfLastSegment(prefix + ".pdf", "exe");
    ToLowerNoCapitals("exe");
    assert prefix + ".pdf" + "." + "exe" == prefix + ".pdf.exe";
  }

  /** A name without a dot is its own extension, lower-cased. */
  lemma ExtensionOfDotFreeName(name: string)
    requires '.' !in name
    ensures FileExtension(name) == "." + ToLower(name)
  {
    var ext := FileExtension(name);
    assert |ext| - 1 == |name|;
    assert ext == [ext[0]] + ext[1..];
  }

  /** A bare `pdf` passes: with no dot, the whole name is the extension. */
  lemma BareNameAccepted()
    ensures IsAllowedUpload("pdf")
  {
    ExtensionOfDotFreeName("pdf");
    ToLowerNoCapitals("pdf");
    assert "." + "pdf" == ".pdf";
  }

  /** `.pdf`, and any other name ending in `.pdf`, passes. */
  lemma DotPdfAccepted(prefix: string)
    ensures IsAllowedUpload(prefix + ".pdf")
  {
    ExtensionOfLastSegment(prefix, "pdf");
    ToLowerNoCapitals("pdf");
    assert prefix + "." + "pdf" == prefix + ".pdf";
    PdfAllowed();
  }

  lemma PdfAllowed()
    ensures "." + "pdf" in AllowedTypes
  {
    assert "." + "pdf" == AllowedTypes[2];
  }

  lemma LowerPdf()
    ensures ToLower("PDF") == "pdf"
  {
    var low := ToLower("PDF");
    assert low[0] == 'p' && low[1] == 'd' && low[2] == 'f';
  }

  /** `A.PDF`, and any other name ending in `.PDF`, passes: case is ignored. */
  lemma CaseIgnored(prefix: string)
    ensures IsAllowedUpload(prefix + ".PDF")
  {
    ExtensionOfLastSegment(prefix, "PDF");
    LowerPdf();
    assert prefix + "." + "PDF" == prefix + ".PDF";
    PdfAllowed();
  }

  /** `a.`, and any other name ending in a dot, has extension `.` and fails. */
  lemma TrailingDotRejected(prefix: string)
    ensures FileExtension(prefix + ".") == "."
    ensures !IsAllowedUpload(prefix + ".")
  {
    ExtensionOfLastSegment(prefix, "");
    assert prefix + "." + "" == prefix + ".";
  }

  /** `handleFileUpload`'s decision. */
  function UploadDecision(file: File): (r: UploadOutcome)
    ensures r.Accepted? <==> FileExtension(file.name) in AllowedTypes
    ensures r.Rejected? ==> r.alert == RejectionMessage
  {
    if IsAllowedUpload(file.name) then Accepted else Rejected(RejectionMessage)
  }

  // -------------------------------------------------------------- download

  const ReviewedSuffix: string := "-reviewed.docx"
  const ContentHeader: string := "Revised Document: "
  const ContentFooter: string := "\n\nThis is a mock revised document with AI suggestions applied."

  /** The downloaded artefact: its file name and its text. */
  datatype Artifact = Artifact(fileName: string, content: string)

  /** `${name.split('.')[0]}-reviewed.docx`: the text before the first dot of
      `name` (possibly empty, all of `name` when it has no dot), then the suffix. */
  function RevisedFileName(name: string): (r: string)
    ensures |r| >= |ReviewedSuffix| && r[|r| - |ReviewedSuffix|..] == ReviewedSuffix
    ensures var base := r[..|r| - |ReviewedSuffix|];
      |base| <= |name| && base == name[..|base|] && '.' !in base &&
      (|base| == |name| || name[|base|] == '.')
  {
    FirstPiece(name, '.');
    var base := Split(name, '.')[0];
    var r := base + ReviewedSuffix;
    assert r[..|r| - |ReviewedSuffix|] == base;
    r
  }

  /** The name is cut at its first dot: `my.contract.pdf` gives `my-reviewed.docx`. */
  lemma {:induction false} RevisedFileNameCutsAtFirstDot(base: string, rest: string)
    requires '.' !in base
    ensures RevisedFileName(base + "." + rest) == base + ReviewedSuffix
  {
    SplitAfterPiece(base, '.', rest);
    assert base + "." + rest == base + ['.'] + rest;
  }

  /** A name without a dot is kept whole: `lease` gives `lease-reviewed.docx`. */
  lemma RevisedFileNameWithoutDot(name: string)
    requires '.' !in name
    ensures RevisedFileName(name) == name + ReviewedSuffix
  {
  }

  /** The placeholder text of the artefact. */
  function RevisedContent(name: string): (r: string)
    ensures |r| == |ContentHeader| + |name| + |ContentFooter|
  {
    ContentHeader + name + ContentFooter
  }

  /** Reads the file name back out of an artefact's text, if it has the
      artefact's shape. */
  function NameInContent(content: string): Option<string> {
    if |content| >= |ContentHeader| + |ContentFooter| &&
       content[..|ContentHeader|] == ContentHeader &&
       content[|content| - |ContentFooter|..] == ContentFooter
    then Some(content[|ContentHeader|..|content| - |ContentFooter|])
    else None
  }

  /** The artefact's text names exactly the file it came from, and every text
      of that shape is the artefact of the name it holds. */
  lemma ContentNamesFile(name: string, content: string)
    ensures NameInContent(RevisedContent(name)) == Some(name)
    ensures NameInContent(content) == Some(name) ==> RevisedContent(name) == content
  {
    var c := RevisedContent(name);
    assert c[..|ContentHeader|] == ContentHeader;
    assert c[|c| - |ContentFooter|..] == ContentFooter;
    assert c[|ContentHeader|..|c| - |ContentFooter|] == name;
    if NameInContent(content) == Some(name) {
      assert content == content[..|ContentHeader|] +
        content[|ContentHeader|..|content| - |ContentFooter|] +
        content[|content| - |ContentFooter|..];
    }
  }

  /** `downloadRevisedDocument` without its browser calls: nothing without a
      file, otherwise the artefact derived from the file's name. */
  function Download(file: Option<File>): (r: Option<Artifact>)
    ensures r.None? <==> file.None?
    ensures r.Some? ==> NameInContent(r.value.content) == Some(file.value.name)
    ensures r.Some? ==> r.value.fileName == RevisedFileName(file.value.name)
  {
    match file
    case None => None
    case Some(f) =>
      ContentNamesFile(f.name, "");
      Some(Artifact(RevisedFileName(f.name), RevisedContent(f.name)))
  }

  // ---------------------------------------------------------------- review

  datatype Issue = Issue(clause: string, severity: string, issue: string, suggestion: string)
  datatype Review = Review(summary: string, issues: seq<Issue>)

  /** The payload the simulated review always produces. */
  function MockReview(): (r: Review)
    ensures |r.issues| == 3
    ensures r.issues[0].severity == "High"
    ensures r.issues[1].severity == "Medium"
    ensures r.issues[2].severity == "Low"
  {
    Review(MockSummary, [TerminationIssue, IndemnityIssue, JurisdictionIssue])
  }

  const MockSummary: string :=
    "This document contains 12 clauses. Key risk areas: termination clause (ambiguous), indemnity (missing), and jurisdiction clause (favors counterparty)."
  const TerminationIssue: Issue :=
    Issue("Clause 4.2 - Termination", "High", "Ambiguous notice period",
          "Replace with '30 days written notice'")
  const IndemnityIssue: Issue :=
    Issue("Clause 7.1 - Indemnity", "Medium", "Missing mutual indemnification",
          "Add reciprocal indemnity clause")
  const JurisdictionIssue: Issue :=
    Issue("Clause 9.3 - Jurisdiction", "Low", "Favors counterparty location",
          "Consider neutral jurisdiction")

  datatype BadgeVariant = Destructive | Default | Secondary

  /** The badge variant for an issue's severity; every string gets one. */
  function SeverityBadge(severity: string): (v: BadgeVariant)
    ensures v == Destructive <==> severity == "High"
    ensures v == Default <==> severity == "Medium"
    ensures v == Secondary <==> severity != "High" && severity != "Medium"
  {
    if severity == "High" then Destructive
    else if severity == "Medium" then Default
    else Secondary
  }

  /** The three issues of the payload get three different badges, most
      severe first. */
  lemma MockReviewBadges()
    ensures |MockReview().issues| == 3
    ensures SeverityBadge(MockReview().issues[0].severity) == Destructive
    ensures SeverityBadge(MockReview().issues[1].severity) == Default
    ensures SeverityBadge(MockReview().issues[2].severity) == Secondary
  {
  }

  // -------------------------------------------------------------- progress

  /** `for (let i = 0; i <= 100; i += 10)`. */
  const ProgressStart: int := 0
  const ProgressMax: int := 100
  const ProgressStep: int := 10

  /** The values the loop hands to `setProgress` from counter `i` on. */
  function ProgressFrom(i: int): seq<int>
    decreases ProgressMax + 1 - i
  {
    if i > ProgressMax then [] else [i] + ProgressFrom(i + ProgressStep)
  }

  /** The whole schedule of the simulated review. */
  function ProgressSchedule(): seq<int> {
    ProgressFrom(ProgressStart)
  }

  /** From a counter `i` that is a multiple of the step, the loop still writes
      `(110 - i) / 10` values, going up by the step from `i`. */
  lemma {:induction false} ProgressFromShape(i: int)
    requires 0 <= i <= ProgressMax + ProgressStep && i % ProgressStep == 0
    ensures |ProgressFrom(i)| == (ProgressMax + ProgressStep - i) / ProgressStep
    ensures forall k :: 0 <= k < |ProgressFrom(i)| ==> ProgressFrom(i)[k] == i + ProgressStep * k
    decreases ProgressMax + 1 - i
  {
    if i <= ProgressMax {
      ProgressFromShape(i + ProgressStep);
    }
  }

  /** The review writes eleven progress values, 0, 10, ..., 100, strictly
      increasing, each a multiple of ten between 0 and 100. */
  lemma ProgressScheduleFacts()
    ensures |ProgressSchedule()| == 11
    ensures ProgressSchedule()[0] == 0 && ProgressSchedule()[10] == 100
    ensures forall j, k :: 0 <= j < k < |ProgressSchedule()| ==>
      ProgressSchedule()[j] < ProgressSchedule()[k]
    ensures forall k :: 0 <= k < |ProgressSchedule()| ==>
      ProgressSchedule()[k] % ProgressStep == 0 && 0 <= ProgressSchedule()[k] <= ProgressMax
    ensures ProgressSchedule() == [0, 10, 20, 30, 40, 50, 60, 70, 80, 90, 100]
  {
    ProgressFromShape(0);
  }
}
