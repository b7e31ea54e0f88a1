/** Values that travel between a backend and the page servers. */
module PageTypes {
  import opened Options

  type Lsn = nat

  type Page = seq<bv8>

  /** Page versions: the image of a block as of an LSN. */
  type History = (Tag, Lsn) -> Page

  datatype Tag = Tag(spc: nat, db: nat, rel: nat, fork: nat, block: nat)

  /** The three LSNs of a request; only the first two are sent. */
  datatype Lsns = Lsns(request: Lsn, notModifiedSince: Lsn, effective: Lsn)

  datatype Request =
    | GetPage(tag: Tag, reqid: nat, lsn: Lsn, notModifiedSince: Lsn)
    | Metadata(key: nat, reqid: nat, lsn: Lsn, notModifiedSince: Lsn)

  /** Every response names the request it answers, as protocol version 3 echoes it. `at` is the LSN at
      which the server read the page; it is not a protocol field. */
  datatype Response =
    | PageResponse(req: Request, at: Lsn, page: Page)
    | MetadataResponse(req: Request, value: nat)
    | ErrorResponse(req: Request)

  predicate WellFormed(lsns: Lsns) {
    && lsns.notModifiedSince <= lsns.effective
    && lsns.effective <= lsns.request
  }

  /** The claim behind a request: the page was not modified in (notModifiedSince, effective]. */
  ghost predicate Claim(history: History, tag: Tag, lsns: Lsns) {
    Unmodified(history, tag, lsns.notModifiedSince, lsns.effective)
  }

  ghost predicate Unmodified(history: History, tag: Tag, from: Lsn, upTo: Lsn) {
    forall l: Lsn :: from <= l <= upTo ==> history(tag, l) == history(tag, from)
  }

  /** A server answers with the image of the requested block at some LSN not before `notModifiedSince` and
      not after the request LSN, or with an error. */
  ghost predicate Answers(history: History, req: Request, resp: Response) {
    && resp.req == req
    && (resp.PageResponse? ==>
          && req.GetPage?
          && req.notModifiedSince <= resp.at <= req.lsn
          && resp.page == history(req.tag, resp.at))
    && (resp.MetadataResponse? ==> req.Metadata?)
  }

  /** Can a new request be satisfied by the response to an older one? Their ranges must overlap, and neither
      end may have gone backwards. */
  predicate Usable(wanted: Lsns, earlier: Lsns)
    ensures Usable(wanted, earlier) <==>
      earlier.notModifiedSince <= wanted.notModifiedSince <= earlier.effective <= wanted.effective
  {
    if wanted.effective < earlier.effective || wanted.notModifiedSince < earlier.notModifiedSince then
      false
    else
      wanted.notModifiedSince <= earlier.effective
  }

  /** The server cannot have read a page at an LSN that nobody had written yet. */
  ghost predicate Reached(resp: Response, clock: Lsn) {
    resp.PageResponse? ==> resp.at <= clock
  }

  /** What a backend has done and learnt: the page requests it ever registered and the shards they were sent to,
      the highest LSN known to exist, and the responses it ever received. */
  datatype Known = Known(asked: set<(Tag, Lsns)>, routes: set<(Tag, nat)>, clock: Lsn, heard: set<Response>)

  ghost predicate Grows(k: Known, l: Known) {
    k.asked <= l.asked && k.routes <= l.routes && k.clock <= l.clock && k.heard <= l.heard
  }

  function Max(a: Lsn, b: Lsn): Lsn { if a < b then b else a }

  /** A claim that holds on until `clock`: the page stays as it is while its buffer is being filled. */
  ghost predicate ClaimUntil(history: History, tag: Tag, lsns: Lsns, clock: Lsn) {
    Unmodified(history, tag, lsns.notModifiedSince, Max(lsns.effective, clock))
  }

  /** The image a caller gets from an accepted older response is the image at the caller's own effective
      LSN, and still the current one, when the caller's claim holds until it gets the page. */
  lemma UsableMeansCurrent(history: History, tag: Tag, wanted: Lsns, earlier: Lsns, at: Lsn, clock: Lsn)
    requires ClaimUntil(history, tag, wanted, clock) && Claim(history, tag, earlier)
    requires Usable(wanted, earlier) && WellFormed(wanted) && WellFormed(earlier)
    requires earlier.notModifiedSince <= at <= clock
    ensures history(tag, at) == history(tag, wanted.effective) == history(tag, Max(wanted.effective, clock))
  {
    var mid := wanted.notModifiedSince;
    assert history(tag, wanted.effective) == history(tag, mid);
    assert history(tag, mid) == history(tag, earlier.notModifiedSince);
    assert history(tag, at) == if at < mid then history(tag, earlier.notModifiedSince) else history(tag, mid);
  }

  /** Where requests name the LSN they want, the claims alone are enough. */
  lemma UsableAtRequestLsn(history: History, tag: Tag, wanted: Lsns, earlier: Lsns, at: Lsn)
    requires Claim(history, tag, wanted) && Claim(history, tag, earlier)
    requires Usable(wanted, earlier) && WellFormed(wanted) && WellFormed(earlier)
    requires earlier.notModifiedSince <= at <= earlier.request && earlier.request == earlier.effective
    ensures history(tag, at) == history(tag, wanted.effective)
  {
    UsableMeansCurrent(history, tag, wanted, earlier, at, wanted.effective);
  }

  /** A request for the latest version needs the longer claim: if the claim holds only until `clock`, an
      answer read one LSN later may be another page. */
  lemma ShorterClaimIsNotEnough(tag: Tag, lsns: Lsns, clock: Lsn) returns (history: History, at: Lsn)
    requires WellFormed(lsns) && lsns.effective <= clock < lsns.request
    ensures ClaimUntil(history, tag, lsns, clock) && lsns.notModifiedSince <= at <= lsns.request
    ensures history(tag, at) != history(tag, lsns.effective)
  {
    history := (t: Tag, l: Lsn) => if l <= clock then [] else [0];
    at := clock + 1;
  }

  /** The test that accepts an older response cannot be widened: whenever it rejects one although neither LSN
      went backwards, there is a page history in which both claims hold and the older answer is the wrong
      page. */
  lemma RejectedMayBeStale(tag: Tag, wanted: Lsns, earlier: Lsns) returns (history: History)
    requires WellFormed(wanted) && WellFormed(earlier)
    requires wanted.effective >= earlier.effective && !Usable(wanted, earlier)
    requires wanted.notModifiedSince >= earlier.notModifiedSince
    ensures Claim(history, tag, wanted) && Claim(history, tag, earlier)
    ensures history(tag, earlier.effective) != history(tag, wanted.effective)
  {
    history := (t: Tag, l: Lsn) => if l <= earlier.effective then [] else [0];
  }
}
