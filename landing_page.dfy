/** The state of the landing page component and its event handlers. Each
    `useState` hook is a field; each handler is a method that overwrites the
    fields it sets and says that the others are kept. */
module LandingPage {
  import opened JsString
  import opened Landing

  class Page {
    var selectedDomain: Option<string>
    var uploadedFile: Option<File>
    var isProcessing: bool
    var progress: int
    var results: Option<Review>
    var isChatOpen: bool
    var isMobileMenuOpen: bool
    /** Every value handed to `setProgress`, oldest first; the page itself
        keeps only the latest, in `progress`. */
    ghost var progressWrites: seq<int>

    /** What holds between handlers: progress is a multiple of the step
        between 0 and the maximum, the only result ever held is the fixed
        payload, and a held result comes with a finished progress bar. */
    ghost predicate Valid()
      reads this
    {
      0 <= progress <= ProgressMax && progress % ProgressStep == 0 &&
      (results.Some? ==> results.value == MockReview() && progress == ProgressMax)
    }

    /** The initial values of the hooks. */
    constructor ()
      ensures Valid()
      ensures selectedDomain == None && uploadedFile == None && results == None
      ensures !isProcessing && progress == 0 && !isChatOpen && !isMobileMenuOpen
      ensures progressWrites == []
    {
      selectedDomain := None;
      uploadedFile := None;
      isProcessing := false;
      progress := 0;
      results := None;
      isChatOpen := false;
      isMobileMenuOpen := false;
      progressWrites := [];
    }

    /** `setProgress(value)`. */
    method SetProgress(value: int)
      modifies this`progress, this`progressWrites
      ensures progress == value && progressWrites == old(progressWrites) + [value]
    {
      progress := value;
      progressWrites := progressWrites + [value];
    }

    /** `handleDomainSelect`: picks a domain and starts over, dropping the
        held file and result and resetting progress. */
    method SelectDomain(domainId: string)
      requires Valid()
      modifies this
      ensures Valid()
      ensures selectedDomain == Some(domainId)
      ensures uploadedFile == None && results == None && progress == 0
      ensures progressWrites == old(progressWrites) + [0]
      ensures isProcessing == old(isProcessing)
      ensures isChatOpen == old(isChatOpen) && isMobileMenuOpen == old(isMobileMenuOpen)
    {
      selectedDomain := Some(domainId);
      uploadedFile := None;
      results := None;
      SetProgress(0);
    }

    /** `handleFileUpload`: keeps the file when its extension is allowed,
        replacing any held file; otherwise alerts and changes nothing. */
    method UploadFile(file: File) returns (outcome: UploadOutcome)
      requires Valid()
      modifies this
      ensures Valid()
      ensures outcome.Accepted? <==> IsAllowedUpload(file.name)
      ensures outcome.Rejected? ==> outcome.alert == RejectionMessage && unchanged(this)
      ensures outcome.Accepted? ==> uploadedFile == Some(file)
      ensures outcome.Accepted? ==>
        selectedDomain == old(selectedDomain) && results == old(results) &&
        progress == old(progress) && isProcessing == old(isProcessing) &&
        isChatOpen == old(isChatOpen) && isMobileMenuOpen == old(isMobileMenuOpen) &&
        progressWrites == old(progressWrites)
    {
      outcome := UploadDecision(file);
      if outcome.Accepted? {
        uploadedFile := Some(file);
      }
    }

    /** The "Back to Domains" button: leaves the upload view and keeps the
        file and result. */
    method Back()
      requires Valid()
      modifies this`selectedDomain
      ensures Valid()
      ensures selectedDomain == None
    {
      selectedDomain := None;
    }

    /** The remove button beside a held file. */
    method RemoveFile()
      requires Valid()
      modifies this`uploadedFile
      ensures Valid()
      ensures uploadedFile == None
    {
      uploadedFile := None;
    }

    /** The floating chat bubble and "Request Human Review" both open the panel. */
    method OpenChat()
      requires Valid()
      modifies this`isChatOpen
      ensures Valid()
      ensures isChatOpen
    {
      isChatOpen := true;
    }

    /** The close button of the chat panel. */
    method CloseChat()
      requires Valid()
      modifies this`isChatOpen
      ensures Valid()
      ensures !isChatOpen
    {
      isChatOpen := false;
    }

    /** The menu button of the narrow-screen header. */
    method ToggleMobileMenu()
      requires Valid()
      modifies this`isMobileMenuOpen
      ensures Valid()
      ensures isMobileMenuOpen == !old(isMobileMenuOpen)
    {
      isMobileMenuOpen := !isMobileMenuOpen;
    }

    /** Whether the "Start AI Review" button is on screen: the upload view is
        shown (a non-empty domain id is selected), a file is held, no run is
        going and there is no result yet. */
    predicate CanStartReview()
      reads this
      ensures CanStartReview() <==>
        selectedDomain.Some? && |selectedDomain.value| > 0 &&
        uploadedFile.Some? && !isProcessing && results.None?
    {
      selectedDomain.Some? && selectedDomain.value != "" &&
      uploadedFile.Some? && !isProcessing && results.None?
    }

    /** `simulateProcessing`, with the delays left out: progress is set to 0,
        then to each value of the schedule in turn, then the fixed payload is
        stored and processing ends. The held file is never read. */
    method SimulateProcessing()
      requires Valid()
      modifies this
      ensures Valid()
      ensures !isProcessing && progress == ProgressMax
      ensures results == Some(MockReview())
      ensures progressWrites == old(progressWrites) + [0] + ProgressSchedule()
      ensures selectedDomain == old(selectedDomain) && uploadedFile == old(uploadedFile)
      ensures isChatOpen == old(isChatOpen) && isMobileMenuOpen == old(isMobileMenuOpen)
    {
      isProcessing := true;
      SetProgress(0);
      CountProgress();
      results := Some(MockReview());
      isProcessing := false;
    }

    /** The loop `for (let i = 0; i <= 100; i += 10) setProgress(i)`: it
        writes the whole schedule, in order, and leaves progress at 100. */
    method CountProgress()
      modifies this`progress, this`progressWrites
      ensures progress == ProgressMax
      ensures progressWrites == old(progressWrites) + ProgressSchedule()
    {
      var i := ProgressStart;
      while i <= ProgressMax
        invariant 0 <= i <= ProgressMax + ProgressStep && i % ProgressStep == 0
        invariant progressWrites + ProgressFrom(i) == old(progressWrites) + ProgressSchedule()
        invariant i > ProgressStart ==> progress == i - ProgressStep
        decreases ProgressMax + ProgressStep - i
      {
        ghost var before := progressWrites;
        assert ProgressFrom(i) == [i] + ProgressFrom(i + ProgressStep);
        SetProgress(i);
        assert progressWrites + ProgressFrom(i + ProgressStep) == before + ProgressFrom(i);
        i := i + ProgressStep;
      }
    }

    /** Pressing "Start AI Review": the run happens only when the button is
        on screen; otherwise nothing changes. */
    method StartReview() returns (started: bool)
      requires Valid()
      modifies this
      ensures Valid()
      ensures started == old(CanStartReview())
      ensures !started ==> unchanged(this)
      ensures started ==>
        !isProcessing && progress == ProgressMax && results == Some(MockReview()) &&
        progressWrites == old(progressWrites) + [0] + ProgressSchedule() &&
        selectedDomain == old(selectedDomain) && uploadedFile == old(uploadedFile) &&
        isChatOpen == old(isChatOpen) && isMobileMenuOpen == old(isMobileMenuOpen)
    {
      started := CanStartReview();
      if started {
        SimulateProcessing();
      }
    }

    /** `downloadRevisedDocument` without its browser calls: nothing without a
        held file, otherwise a text artefact named after the text before the
        file name's first dot that names the whole file. */
    method DownloadRevisedDocument() returns (artifact: Option<Artifact>)
      ensures artifact.None? <==> uploadedFile.None?
      ensures artifact.Some? ==>
        artifact.value.fileName == RevisedFileName(uploadedFile.value.name) &&
        artifact.value.content == ContentHeader + uploadedFile.value.name + ContentFooter
    {
      artifact := Download(uploadedFile);
    }

    /** The heading of the upload view names the selected domain's card. */
    function UploaderHeading(): (r: Option<string>)
      reads this
      ensures r.Some? <==> selectedDomain.Some? && exists d :: d in Domains && d.id == selectedDomain.value
      ensures r.Some? ==> exists d :: d in Domains && Some(d.id) == selectedDomain && d.name == r.value
    {
      SelectedDomainName(selectedDomain)
    }
  }

  /** Toggling the mobile menu twice gives back the page it started from. */
  method ToggleMobileMenuTwice(page: Page)
    requires page.Valid()
    modifies page
    ensures unchanged(page)
  {
    page.ToggleMobileMenu();
    page.ToggleMobileMenu();
  }

  /** Opening and closing the chat panel touches nothing but the panel flag. */
  method ChatRoundTrip(page: Page)
    requires page.Valid() && !page.isChatOpen
    modifies page
    ensures unchanged(page)
  {
    page.OpenChat();
    page.CloseChat();
  }

  /** Any two pages that can start a review finish it with the same result,
      whatever files they hold: the payload does not depend on the file. */
  method ReviewIgnoresFile(a: Page, b: Page)
    requires a != b && a.Valid() && b.Valid()
    requires a.CanStartReview() && b.CanStartReview()
    modifies a, b
    ensures a.results == b.results == Some(MockReview())
  {
    var startedA := a.StartReview();
    var startedB := b.StartReview();
  }

  /** A whole session: pick a domain, upload, review, download. */
  method Session(file: File) returns (artifact: Option<Artifact>)
    requires IsAllowedUpload(file.name)
    ensures artifact == Some(Artifact(RevisedFileName(file.name), RevisedContent(file.name)))
  {
    var page := new Page();
    page.SelectDomain("healthcare");
    var outcome := page.UploadFile(file);
    var started := page.StartReview();
    assert started;
    assert page.results == Some(MockReview());
    artifact := page.DownloadRevisedDocument();
  }
}
