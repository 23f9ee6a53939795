/** The request handler (api/leaderboard.js, lines 143-205) over an in-memory
    store: GET lists a mode's top ten, POST validates and merges a result,
    DELETE removes a row for an administrator. Store calls that fail are
    described by a `Fault` the caller supplies. */
module Handler {
  import opened Wrappers
  import opened Records
  import opened Names
  import opened Ranking
  import opened Scoring
  import opened Store

  // ---------------------------------------------------------------------
  // Requests and responses
  // ---------------------------------------------------------------------

  /** Why a request was refused; each stands for one of the handler's messages. */
  datatype Reason =
    | InvalidMode                   // "Ogiltigt läge."
    | InvalidName                   // "Namn måste vara 2-16 tecken."
    | BlockedName                   // "Namnet är inte tillåtet."
    | NotInteger                    // "Ogiltig poäng eller tid."
    | OutOfRange                    // "Resultatvärden utanför tillåtet intervall."
    | MissingId                     // "Saknar id."
    | WrongAdminCode                // "Fel admin-kod."
    | MethodNotAllowed              // "Metod stöds inte."
    | StoreFailure(message: string) // the store's own error message
    | InternalError                 // "Internt serverfel."

  function StatusOf(reason: Reason): int {
    match reason
    case WrongAdminCode => 403
    case MethodNotAllowed => 405
    case StoreFailure(_) => 500
    case InternalError => 500
    case _ => 400
  }

  datatype Body =
    | Error(reason: Reason)
    | Listing(entries: seq<Entry>)
    | Submitted(saved: bool, entry: Option<Entry>, entries: seq<Entry>)
    | Deleted

  datatype Response = Response(status: int, body: Body)

  function Reject(reason: Reason): Response {
    Response(StatusOf(reason), Error(reason))
  }

  /** The fields of a submission; `None` is an absent or falsy field, and the
      numbers are what `Number(...)` made of them. */
  datatype PostBody = PostBody(
    mode: Option<string>,
    playerName: Option<string>,
    score: Num,
    maxScore: Num,
    durationMs: Num)

  /** A request by method (an absent method is GET). As in `PostBody`, `None`
      is an absent or falsy field: a falsy mode means `skeleton`, and a falsy
      id (the number 0 included) or admin code is refused. `Some(n)` is an id
      whose text is the digits of `n`, passed on to the store as it is. */
  datatype Request =
    | Get(mode: Option<string>)
    | Post(body: PostBody)
    | Delete(id: Option<nat>, adminCode: Option<string>)
    | OtherMethod

  /** The store calls a request can make. */
  datatype StoreCall = ListCall | FindCall | WriteCall | DeleteCall

  /** The first store call of a request that throws, with its error message. */
  datatype Fault = Fault(call: StoreCall, message: string)

  predicate FailsAt(fault: Option<Fault>, call: StoreCall) {
    fault.Some? && fault.value.call == call
  }

  /** The `catch` branch: status 500 with the error's message, or a fixed
      text when the message is empty. */
  function FaultResponse(message: string): (r: Response)
    ensures r.status == 500 && r.body.Error?
    ensures message == "" ==> r.body.reason == InternalError
    ensures message != "" ==> r.body.reason == StoreFailure(message)
  {
    if message == "" then Reject(InternalError) else Reject(StoreFailure(message))
  }

  /** A text field of the request, with an absent or falsy value read as
      the empty string (lines 156, 191-192). */
  function OrEmpty(x: Option<string>): string {
    if x.Some? then x.value else ""
  }

  /** The mode a GET asks for; without one it is the skeleton board (line 147). */
  function GetMode(mode: Option<string>): string {
    if mode.None? || mode.value == "" then "skeleton" else mode.value
  }

  // ---------------------------------------------------------------------
  // Validating a submission
  // ---------------------------------------------------------------------

  /** `upsertPayload`: the row fields of a submission that passed every check,
      with its accuracy percentage. */
  function MakePayload(mode: string, name: string, score: int, maxScore: int, durationMs: int): (p: Payload)
    requires mode in ALLOWED_MODES && AcceptedName(name) && InRange(score, maxScore, durationMs)
    ensures WellFormedPayload(p)
    ensures p.mode == mode && p.playerName == name
    ensures p.score == score && p.maxScore == maxScore && p.durationMs == durationMs
  {
    Payload(mode, name, score, maxScore, durationMs, AccuracyPercent(score, maxScore))
  }

  /** The checks of a POST in the handler's order (mode, name, blocked term,
      integers, range); when all pass, the payload to store. */
  function ValidateSubmission(body: PostBody): (r: Result<Payload, Reason>)
    ensures r == Failure(InvalidMode) <==> OrEmpty(body.mode) !in ALLOWED_MODES
    ensures r == Failure(InvalidName) <==>
      OrEmpty(body.mode) in ALLOWED_MODES && !IsValidName(NormalizeName(body.playerName))
    ensures r == Failure(BlockedName) <==>
      && OrEmpty(body.mode) in ALLOWED_MODES && IsValidName(NormalizeName(body.playerName))
      && HasBlockedTerms(NormalizeName(body.playerName))
    ensures r == Failure(Reason.NotInteger) <==>
      && OrEmpty(body.mode) in ALLOWED_MODES && AcceptedName(NormalizeName(body.playerName))
      && !(body.score.Int? && body.maxScore.Int? && body.durationMs.Int?)
    ensures r.Success? <==>
      && OrEmpty(body.mode) in ALLOWED_MODES && AcceptedName(NormalizeName(body.playerName))
      && body.score.Int? && body.maxScore.Int? && body.durationMs.Int?
      && InRange(body.score.value, body.maxScore.value, body.durationMs.value)
    ensures r.Failure? ==> r.error in {InvalidMode, InvalidName, BlockedName, Reason.NotInteger, OutOfRange}
    ensures r.Success? ==>
      && WellFormedPayload(r.value)
      && r.value.mode == OrEmpty(body.mode)
      && r.value.playerName == NormalizeName(body.playerName)
      && body.score == Int(r.value.score)
      && body.maxScore == Int(r.value.maxScore)
      && body.durationMs == Int(r.value.durationMs)
      && r.value.accuracyPercent == AccuracyPercent(r.value.score, r.value.maxScore)
  {
    var mode := OrEmpty(body.mode);
    var name := NormalizeName(body.playerName);
    NormalizeNameIsNormal(body.playerName);
    if mode !in ALLOWED_MODES then Failure(InvalidMode)
    else if !IsValidName(name) then Failure(InvalidName)
    else if HasBlockedTerms(name) then Failure(BlockedName)
    else if !(body.score.Int? && body.maxScore.Int? && body.durationMs.Int?) then Failure(Reason.NotInteger)
    else
      var score, maxScore, durationMs := body.score.value, body.maxScore.value, body.durationMs.value;
      if !InRange(score, maxScore, durationMs) then Failure(OutOfRange)
      else Success(MakePayload(mode, name, score, maxScore, durationMs))
  }

  // ---------------------------------------------------------------------
  // What each branch does, as relations between the store before and after
  // ---------------------------------------------------------------------

  /** The result of `upsertBestEntry`: whether it wrote, and the row it reports. */
  datatype Upsert = Upsert(updated: bool, entry: Option<Entry>)

  /** `upsertBestEntry(p)`: a failing lookup or write changes nothing; a payload
      that is not better changes nothing and reports the stored row; otherwise
      the row is patched in place or a new one is inserted. */
  ghost predicate UpsertSpec(
    entries: seq<Entry>, nextId: nat, p: Payload, now: int, fault: Option<Fault>,
    entries': seq<Entry>, nextId': nat, r: Result<Upsert, string>)
  {
    var existing := FindEntryByName(entries, p.mode, p.playerName);
    if FailsAt(fault, FindCall) || (UpsertWrites(entries, p) && FailsAt(fault, WriteCall)) then
      r == Failure(fault.value.message) && entries' == entries && nextId' == nextId
    else
      && entries' == Upserted(entries, p, nextId, now)
      && nextId' == NextIdAfter(entries, p, nextId)
      && r == Success(Upsert(
           UpsertWrites(entries, p),
           if !UpsertWrites(entries, p) then existing
           else if existing.Some? then Some(Patched(existing.value, p))
           else Some(NewEntry(nextId, p, now))))
  }

  /** GET: an unknown mode is refused whatever the store holds; otherwise the
      mode's top ten in display order. */
  ghost predicate GetSpec(entries: seq<Entry>, mode: Option<string>, fault: Option<Fault>, res: Response) {
    var m := GetMode(mode);
    if m !in ALLOWED_MODES then res == Reject(InvalidMode)
    else if FailsAt(fault, ListCall) then res == FaultResponse(fault.value.message)
    else res.status == 200 && res.body.Listing? && IsTopN(res.body.entries, ModeRows(entries, m), TOP_N)
  }

  /** POST: a refused submission changes nothing; an accepted one is merged
      and answered with the saved flag, the reported row and the mode's
      refreshed top ten. */
  ghost predicate PostSpec(
    entries: seq<Entry>, nextId: nat, body: PostBody, now: int, fault: Option<Fault>,
    entries': seq<Entry>, nextId': nat, res: Response)
  {
    match ValidateSubmission(body)
    case Failure(reason) => res == Reject(reason) && entries' == entries && nextId' == nextId
    case Success(p) =>
      exists u :: UpsertSpec(entries, nextId, p, now, fault, entries', nextId', u) &&
        if u.Failure? then res == FaultResponse(u.error)
        else if FailsAt(fault, ListCall) then res == FaultResponse(fault.value.message)
        else
          && res.status == 200 && res.body.Submitted?
          && res.body.saved == u.value.updated && res.body.entry == u.value.entry
          && IsTopN(res.body.entries, ModeRows(entries', p.mode), TOP_N)
  }

  /** DELETE: a missing id (400) or a missing or wrong admin code (403) deletes
      nothing; otherwise the rows with that id go and nothing else changes. */
  ghost predicate DeleteSpec(
    entries: seq<Entry>, configured: Option<string>, id: Option<nat>, code: Option<string>,
    fault: Option<Fault>, entries': seq<Entry>, res: Response)
  {
    if id.None? then res == Reject(MissingId) && entries' == entries
    else if OrEmpty(code) == "" || Some(OrEmpty(code)) != configured then
      res == Reject(WrongAdminCode) && entries' == entries
    else if FailsAt(fault, DeleteCall) then res == FaultResponse(fault.value.message) && entries' == entries
    else res == Response(200, Deleted) && entries' == RemoveById(entries, id.value)
  }

  // ---------------------------------------------------------------------
  // The store and the handler
  // ---------------------------------------------------------------------

  class Leaderboard {
    /** The rows of the leaderboard table. */
    var entries: seq<Entry>
    /** The id the table hands out to the next inserted row. */
    var nextId: nat
    /** `LEADERBOARD_ADMIN_CODE`, `None` when it is not set. */
    const adminCode: Option<string>

    ghost predicate Valid()
      reads this
    {
      StoreInvariant(entries, nextId)
    }

    constructor (adminCode: Option<string>)
      ensures Valid() && entries == [] && this.adminCode == adminCode
    {
      entries := [];
      nextId := 1;
      this.adminCode := adminCode;
    }

    /** `listEntries(mode)`: the mode's first `MAX_ROWS` rows in display order. */
    method ListEntries(mode: string) returns (rows: seq<Entry>)
      ensures IsTopN(rows, ModeRows(entries, mode), MAX_ROWS)
    {
      rows := TakeTop(ModeRows(entries, mode), MAX_ROWS);
    }

    /** `upsertBestEntry(p)`. */
    method UpsertBestEntry(p: Payload, now: int, fault: Option<Fault>) returns (r: Result<Upsert, string>)
      requires Valid() && WellFormedPayload(p)
      modifies this
      ensures Valid()
      ensures UpsertSpec(old(entries), old(nextId), p, now, fault, entries, nextId, r)
    {
      if FailsAt(fault, FindCall) {
        return Failure(fault.value.message);
      }
      var existing := FindEntryByName(entries, p.mode, p.playerName);
      if !IsBetterResult(PayloadMerit(p), MeritOf(existing)) {
        return Success(Upsert(false, existing));
      }
      if FailsAt(fault, WriteCall) {
        return Failure(fault.value.message);
      }
      UpsertKeepsInvariant(entries, nextId, p, now);
      if existing.Some? {
        entries := PatchById(entries, existing.value.id, p);
        r := Success(Upsert(true, Some(Patched(existing.value, p))));
      } else {
        var row := NewEntry(nextId, p, now);
        entries := entries + [row];
        nextId := nextId + 1;
        r := Success(Upsert(true, Some(row)));
      }
    }

    /** `deleteEntry(id)`. */
    method DeleteEntry(id: nat)
      requires Valid()
      modifies this
      ensures Valid()
      ensures entries == RemoveById(old(entries), id) && nextId == old(nextId)
    {
      RemoveKeepsInvariant(entries, nextId, id);
      entries := RemoveById(entries, id);
    }

    /** The GET branch: the top ten of the listed rows in display order. */
    method HandleGet(mode: Option<string>, fault: Option<Fault>) returns (res: Response)
      ensures GetSpec(entries, mode, fault, res)
    {
      var m := GetMode(mode);
      if m !in ALLOWED_MODES {
        return Reject(InvalidMode);
      }
      if FailsAt(fault, ListCall) {
        return FaultResponse(fault.value.message);
      }
      var rows := ListEntries(m);
      var top := TakeTop(rows, TOP_N);
      TopOfTop(top, rows, ModeRows(entries, m), TOP_N, MAX_ROWS);
      res := Response(200, Listing(top));
    }

    /** The POST branch. */
    method HandlePost(body: PostBody, now: int, fault: Option<Fault>) returns (res: Response)
      requires Valid()
      modifies this
      ensures Valid()
      ensures PostSpec(old(entries), old(nextId), body, now, fault, entries, nextId, res)
    {
      var v := ValidateSubmission(body);
      if v.Failure? {
        return Reject(v.error);
      }
      var p := v.value;
      var u := UpsertBestEntry(p, now, fault);
      if u.Failure? {
        res := FaultResponse(u.error);
      } else if FailsAt(fault, ListCall) {
        res := FaultResponse(fault.value.message);
      } else {
        var rows := ListEntries(p.mode);
        var top := TakeTop(rows, TOP_N);
        TopOfTop(top, rows, ModeRows(entries, p.mode), TOP_N, MAX_ROWS);
        res := Response(200, Submitted(u.value.updated, u.value.entry, top));
      }
      assert UpsertSpec(old(entries), old(nextId), p, now, fault, entries, nextId, u);
    }

    /** The DELETE branch. */
    method HandleDelete(id: Option<nat>, code: Option<string>, fault: Option<Fault>) returns (res: Response)
      requires Valid()
      modifies this
      ensures Valid() && nextId == old(nextId)
      ensures DeleteSpec(old(entries), adminCode, id, code, fault, entries, res)
    {
      var given := OrEmpty(code);
      if id.None? {
        return Reject(MissingId);
      }
      if given == "" || Some(given) != adminCode {
        return Reject(WrongAdminCode);
      }
      if FailsAt(fault, DeleteCall) {
        return FaultResponse(fault.value.message);
      }
      DeleteEntry(id.value);
      res := Response(200, Deleted);
    }

    /** `handler(req, res)`: dispatch on the method; any other method is 405. */
    method Handle(req: Request, now: int, fault: Option<Fault>) returns (res: Response)
      requires Valid()
      modifies this
      ensures Valid()
      ensures HandleSpec(old(entries), old(nextId), adminCode, req, now, fault, entries, nextId, res)
    {
      match req
      case Get(mode) =>
        res := HandleGet(mode, fault);
      case Post(body) =>
        res := HandlePost(body, now, fault);
      case Delete(id, code) =>
        res := HandleDelete(id, code, fault);
      case OtherMethod =>
        res := Reject(MethodNotAllowed);
    }
  }

  /** The whole handler: GET and other methods leave the store as it is. */
  ghost predicate HandleSpec(
    entries: seq<Entry>, nextId: nat, configured: Option<string>, req: Request, now: int,
    fault: Option<Fault>, entries': seq<Entry>, nextId': nat, res: Response)
  {
    match req
    case Get(mode) => entries' == entries && nextId' == nextId && GetSpec(entries, mode, fault, res)
    case Post(body) => PostSpec(entries, nextId, body, now, fault, entries', nextId', res)
    case Delete(id, code) => nextId' == nextId && DeleteSpec(entries, configured, id, code, fault, entries', res)
    case OtherMethod => entries' == entries && nextId' == nextId && res == Reject(MethodNotAllowed)
  }

  // ---------------------------------------------------------------------
  // Properties of the handler
  // ---------------------------------------------------------------------

  /** Every refusal the caller can fix (a 4xx status) leaves the store exactly
      as it was, whatever the method. */
  lemma ClientErrorsChangeNothing(
    entries: seq<Entry>, nextId: nat, configured: Option<string>, req: Request, now: int,
    fault: Option<Fault>, entries': seq<Entry>, nextId': nat, res: Response)
    requires HandleSpec(entries, nextId, configured, req, now, fault, entries', nextId', res)
    requires 400 <= res.status < 500
    ensures entries' == entries && nextId' == nextId
  {
    if req.Post? {
      AcceptedPostStatus(entries, nextId, req.body, now, fault, entries', nextId', res);
    }
  }

  /** An accepted submission is answered 200, or 500 when the store fails. */
  lemma AcceptedPostStatus(
    entries: seq<Entry>, nextId: nat, body: PostBody, now: int, fault: Option<Fault>,
    entries': seq<Entry>, nextId': nat, res: Response)
    requires PostSpec(entries, nextId, body, now, fault, entries', nextId', res)
    ensures ValidateSubmission(body).Success? ==> res.status == 200 || res.status == 500
  {
    var v := ValidateSubmission(body);
    if v.Success? {
      var u :| UpsertSpec(entries, nextId, v.value, now, fault, entries', nextId', u) &&
        if u.Failure? then res == FaultResponse(u.error)
        else if FailsAt(fault, ListCall) then res == FaultResponse(fault.value.message)
        else res.status == 200;
    }
  }

  /** The lists GET and POST return hold at most ten rows, all of the
      requested mode and all stored. */
  lemma TopRowsOfMode(rows: seq<Entry>, entries: seq<Entry>, mode: string)
    requires IsTopN(rows, ModeRows(entries, mode), TOP_N)
    ensures |rows| <= TOP_N
    ensures forall e :: e in rows ==> e.mode == mode && e in entries
  {
    forall e | e in rows
      ensures e.mode == mode && e in entries
    {
      assert multiset(rows)[e] <= multiset(ModeRows(entries, mode))[e];
    }
  }

  /** The walk-through of a player's three submissions: 80 points in 5000 ms
      creates the row; 90 points in 6000 ms beats it and is patched in; 90
      points in 7000 ms is slower at the same score and is not saved. */
  lemma ThreeSubmissionsScenario(t1: int, t2: int, t3: int)
    ensures var p1 := Payload("skeleton", "Ann", 80, 100, 5000, 80);
      var p2 := Payload("skeleton", "Ann", 90, 100, 6000, 90);
      var p3 := Payload("skeleton", "Ann", 90, 100, 7000, 90);
      var s1 := Upserted([], p1, 1, t1);
      var s2 := Upserted(s1, p2, 2, t2);
      var s3 := Upserted(s2, p3, 2, t3);
      && s1 == [Entry(1, "skeleton", "Ann", 80, 100, 5000, 80, t1)]
      && UpsertWrites(s1, p2)
      && s2 == [Entry(1, "skeleton", "Ann", 90, 100, 6000, 90, t1)]
      && !UpsertWrites(s2, p3)
      && s3 == s2
  {
    var p1 := Payload("skeleton", "Ann", 80, 100, 5000, 80);
    var p2 := Payload("skeleton", "Ann", 90, 100, 6000, 90);
    var s1 := Upserted([], p1, 1, t1);
    assert s1 == [NewEntry(1, p1, t1)];
    assert FindEntryByName(s1, "skeleton", "Ann") == Some(s1[0]);
    var s2 := Upserted(s1, p2, 2, t2);
    assert s2 == PatchById(s1, 1, p2);
    assert FindEntryByName(s2, "skeleton", "Ann") == Some(s2[0]);
  }
}
