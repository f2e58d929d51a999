/** `ScholarSettings`: the citation export format and the number of results
    per page a querier asks Google Scholar to use, and whether either was
    ever set. */
module Settings {
  import opened Wrappers
  import opened PyInt
  import opened Values
  import opened Query

  /** The citation formats: none, RefWorks, RefMan, EndNote, BibTeX. */
  const CITFORM_NONE: int := 0
  const CITFORM_REFWORKS: int := 1
  const CITFORM_REFMAN: int := 2
  const CITFORM_ENDNOTE: int := 3
  const CITFORM_BIBTEX: int := 4

  /** The message `set_per_page_results` gives to `ensure_int`. */
  const PAGE_RESULTS_MSG: string := "page results must be integer"

  /** What `set_citation_format` stores, or the exception it raises: the
      value must be an int (or its text) from 0 to 4. */
  function CitationFormat(v: Value): (r: Result<int, Error>)
    ensures r.Success? <==> EnsureInt(v, None).Success? && CITFORM_NONE <= EnsureInt(v, None).value <= CITFORM_BIBTEX
    ensures r.Success? ==> r.value == EnsureInt(v, None).value
    ensures EnsureInt(v, None).Failure? ==> r == Failure(EnsureInt(v, None).error)
    ensures EnsureInt(v, None).Success? && r.Failure? ==> r.error.FormatError?
  {
    match EnsureInt(v, None)
    case Failure(e) => Failure(e)
    case Success(n) =>
      if n < 0 || n > CITFORM_BIBTEX then
        Failure(FormatError(Some("citation format invalid, is \"" + IntToString(n) + "\"")))
      else Success(n)
  }

  /** What `set_per_page_results` stores: the int, clamped to at most
      `MAX_PAGE_RESULTS`. */
  function PerPageResults(v: Value): (r: Result<int, Error>)
    ensures r.Success? <==> EnsureInt(v, Some(PAGE_RESULTS_MSG)).Success?
    ensures r.Failure? ==> r.error == EnsureInt(v, Some(PAGE_RESULTS_MSG)).error
    ensures r.Success? ==> r.value <= MAX_PAGE_RESULTS
    ensures r.Success? ==> r.value == EnsureInt(v, Some(PAGE_RESULTS_MSG)).value || r.value == MAX_PAGE_RESULTS
    ensures r.Success? && EnsureInt(v, Some(PAGE_RESULTS_MSG)).value <= MAX_PAGE_RESULTS ==>
      r.value == EnsureInt(v, Some(PAGE_RESULTS_MSG)).value
  {
    match EnsureInt(v, Some(PAGE_RESULTS_MSG))
    case Failure(e) => Failure(e)
    case Success(n) => Success(if n < MAX_PAGE_RESULTS then n else MAX_PAGE_RESULTS)
  }

  /** Every format from 0 to 4 is accepted, as an int or as its decimal
      text; every other int is refused with a `FormatError`. */
  lemma CitationFormatsAccepted(n: int)
    ensures CitationFormat(Int(n)).Success? <==> 0 <= n <= 4
    ensures CitationFormat(Str(IntToString(n))) == CitationFormat(Int(n))
    ensures CitationFormat(Null) == Failure(TypeError)
  {
    EnsureIntAcceptsNumbers(n, None);
  }

  class ScholarSettings {
    var citform: int
    var perPageResults: int
    var configured: bool

    /** Settings that hold the defaults: no citation format, 8 results per
        page, not configured. */
    constructor ()
      ensures citform == CITFORM_NONE && perPageResults == MAX_PAGE_RESULTS && !configured
    {
      citform := CITFORM_NONE;
      perPageResults := MAX_PAGE_RESULTS;
      configured := false;
    }

    /** `set_citation_format`: an accepted format is stored and marks the
        settings configured; otherwise nothing changes. */
    method SetCitationFormat(v: Value) returns (r: Outcome<Error>)
      modifies this`citform, this`configured
      ensures CitationFormat(v).Success? ==> r == Pass && citform == CitationFormat(v).value && configured
      ensures CitationFormat(v).Failure? ==>
        r == Fail(CitationFormat(v).error) && citform == old(citform) && configured == old(configured)
    {
      match EnsureInt(v, None) {
        case Failure(e) =>
          return Fail(e);
        case Success(n) =>
          if n < 0 || n > CITFORM_BIBTEX {
            return Fail(FormatError(Some("citation format invalid, is \"" + IntToString(n) + "\"")));
          }
          citform := n;
          configured := true;
          return Pass;
      }
    }

    /** `set_per_page_results`: a numeric count is stored, clamped to 8, and
        marks the settings configured; otherwise nothing changes. */
    method SetPerPageResults(v: Value) returns (r: Outcome<Error>)
      modifies this`perPageResults, this`configured
      ensures PerPageResults(v).Success? ==> r == Pass && perPageResults == PerPageResults(v).value && configured
      ensures PerPageResults(v).Failure? ==>
        r == Fail(PerPageResults(v).error) && perPageResults == old(perPageResults) && configured == old(configured)
    {
      match EnsureInt(v, Some(PAGE_RESULTS_MSG)) {
        case Failure(e) =>
          return Fail(e);
        case Success(n) =>
          perPageResults := n;
          perPageResults := if perPageResults < MAX_PAGE_RESULTS then perPageResults else MAX_PAGE_RESULTS;
          configured := true;
          return Pass;
      }
    }

    /** `is_configured()` */
    function IsConfigured(): bool
      reads this`configured
    {
      configured
    }
  }
}
