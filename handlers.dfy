/**
 * The two route handlers, `getRoot` for `/` and `getTerm` for
 * `/term/:term`. The upstream `/list` call is an input; the templates are
 * the three files read at start-up, taken as given strings.
 */
module Handlers {
  import opened Wrappers
  import opened Text
  import opened Glossary
  import opened Pages

  /** The contents of `frontend/term.html`, `frontend/404.html` and `frontend/index.html`. */
  datatype Templates = Templates(termPage: string, notFoundPage: string, indexPage: string)

  /** What the upstream `/list` request came back with. */
  datatype Upstream = Upstream(status: int, data: seq<Term>)

  /**
   * What the handler does with the request: send a body, or reject its
   * promise before sending anything (an exception outside the `try`).
   */
  datatype Response = Sent(body: string) | NoResponse

  /** The client's `validateStatus`: anything below 500 is a completed request. */
  predicate ValidateStatus(status: int) {
    status < 500
  }

  /**
   * `(await axinst('/list')).data`: the term list, obtained exactly when
   * the status is below 500; None where the client throws.
   */
  function FetchList(upstream: Upstream): (r: Option<seq<Term>>)
    ensures r.Some? <==> upstream.status < 500
    ensures r.Some? ==> r.value == upstream.data
  {
    if ValidateStatus(upstream.status) then Some(upstream.data) else None
  }

  /** `getRoot`: the index template with its `$LIST` filled in. */
  function GetRoot(lib: Library, tpl: Templates, upstream: Upstream): (r: Response)
    ensures r.Sent? <==> upstream.status < 500
    ensures r.Sent? && Absent(tpl.indexPage, ListPlaceholder) ==> r.body == tpl.indexPage
    ensures r.Sent? ==> forall i ::
              (OccursAt(tpl.indexPage, ListPlaceholder, i) && NoOccurrenceBefore(tpl.indexPage, ListPlaceholder, i)) ==>
              r.body == tpl.indexPage[..i] + IndexList(lib, upstream.data) + tpl.indexPage[i + |ListPlaceholder|..]
  {
    match FetchList(upstream)
    case None => NoResponse
    case Some(list) => Sent(ReplaceFirst(tpl.indexPage, ListPlaceholder, IndexList(lib, list)))
  }

  /**
   * What the `try`/`catch` of `getTerm` sends for the decoded query `q`:
   * the term page of the resolved term, or, when `term` stayed undefined and
   * reading `term.name` threw, the not-found page.
   */
  function TermResponse(lib: Library, tpl: Templates, terms: seq<Term>, q: string): (r: Response)
    ensures (forall j :: 0 <= j < |terms| ==> !Matches(lib, terms[j], q)) ==>
      r == Sent(ReplaceFirst(tpl.notFoundPage, TermNamePlaceholder, lib.sanitize(q)))
    ensures r.Sent?
  {
    match LastMatch(lib, terms, q)
    case None => Sent(ReplaceFirst(tpl.notFoundPage, TermNamePlaceholder, lib.sanitize(q)))
    case Some(t) => Sent(Project(tpl.termPage, TermSubstitutions(lib, t)))
  }

  /** The not-found response is the same whatever the term-page template holds. */
  lemma NotFoundIgnoresTermPage(lib: Library, tpl: Templates, other: string, terms: seq<Term>, q: string)
    requires forall j :: 0 <= j < |terms| ==> !Matches(lib, terms[j], q)
    ensures TermResponse(lib, tpl, terms, q) == TermResponse(lib, tpl.(termPage := other), terms, q)
  {
  }

  /** With the last match at `i` the response is the term page projected from that term. */
  lemma TermResponseFound(lib: Library, tpl: Templates, terms: seq<Term>, q: string, i: nat)
    requires i < |terms| && Matches(lib, terms[i], q) && LastOf(lib, terms, q, i)
    ensures TermResponse(lib, tpl, terms, q)
         == Sent(Project(tpl.termPage, TermSubstitutions(lib, terms[i])))
  {
    var r := FindLast(lib, terms, q);
    assert r.Some?;
    assert r.value == i;
  }

  /**
   * `getTerm`: fetch the list, lower-case then decode the route parameter,
   * resolve it and send the page for it. A failed fetch and a decoding
   * error both throw outside the `try`, and nothing is sent.
   */
  method GetTerm(lib: Library, tpl: Templates, upstream: Upstream, param: string)
    returns (r: Response)
    ensures !ValidateStatus(upstream.status) ==> r == NoResponse
    ensures lib.decode(lib.lower(param)).None? ==> r == NoResponse
    ensures ValidateStatus(upstream.status) && lib.decode(lib.lower(param)).Some? ==>
      r == TermResponse(lib, tpl, upstream.data, lib.decode(lib.lower(param)).value)
  {
    var termP := tpl.termPage;
    var fetched := FetchList(upstream);
    if fetched.None? {
      return NoResponse;
    }
    var terms := fetched.value;
    var decoded := lib.decode(lib.lower(param));
    if decoded.None? {
      return NoResponse;
    }
    var termName := decoded.value;
    var term := ResolveTerm(lib, terms, termName);
    match term {
      case None =>
        r := Sent(ReplaceFirst(tpl.notFoundPage, TermNamePlaceholder, lib.sanitize(termName)));
      case Some(t) =>
        termP := RenderTermPage(lib, termP, t);
        r := Sent(termP);
    }
  }
}
