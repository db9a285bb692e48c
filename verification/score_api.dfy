/** The logic of the score service in backend/server.js: the checks a score
    submission goes through, the recent-submission throttle, the record that
    is stored, and the pagination arithmetic of the score listing. The
    database is a sequence of stored records. */
module ScoreApi {
  import opened Optional

  // ---------------------------------------------------------------------
  // Request values

  /** A value of the parsed JSON request body; `Undefined` is a missing
      field. Numbers are JSON numbers, so never NaN. */
  datatype Value =
    | Undefined
    | Null
    | Bool(b: bool)
    | Num(n: real)
    | Str(s: string)
    | Arr(length: nat)
    | Obj(lengthKey: Option<real>)

  /** JavaScript's `!v`. */
  predicate Falsy(v: Value) {
    v.Undefined? || v.Null? || v == Bool(false) || v == Num(0.0) || v == Str("")
  }

  /** `v.length > bound`: strings and arrays have a length, an object has
      the value of its `length` key, and an undefined length compares
      false. */
  predicate LongerThan(v: Value, bound: int) {
    match v
    case Str(s) => |s| > bound
    case Arr(n) => n > bound
    case Obj(l) => l.Some? && l.value > bound as real
    case _ => false
  }

  const MaxScore: real := 999999.0
  const MaxNameLength: int := 50
  const MaxEmailLength: int := 100
  /** Five minutes, in milliseconds. */
  const ThrottleWindow: int := 5 * 60 * 1000

  datatype Submission = Submission(playerName: Value, playerEmail: Value, score: Value)

  /** A stored score; `date` is in milliseconds. */
  datatype ScoreRecord = ScoreRecord(
    playerName: string, playerEmail: string, score: real, ipAddress: string, date: int)

  /** The four 400 answers of the checks, in the order they are made. */
  datatype Invalid = MissingFields | InvalidScore | NameTooLong | EmailTooLong

  /** The answer to a submission. */
  datatype Reply =
    | BadRequest(reason: Invalid)   // HTTP 400
    | TooManyRequests               // HTTP 429
    | InternalError                 // HTTP 500
    | Created(playerName: string, score: real, isNewHighScore: bool)  // HTTP 201

  predicate Missing(body: Submission) {
    Falsy(body.playerName) || Falsy(body.playerEmail) || body.score.Undefined?
  }

  predicate ScoreInRange(v: Value) {
    v.Num? && 0.0 <= v.n <= MaxScore
  }

  /** The request checks, the first failing one deciding the answer. */
  function Validate(body: Submission): (r: Option<Invalid>)
    ensures r == Some(MissingFields) <==> Missing(body)
    ensures r == Some(InvalidScore) <==> !Missing(body) && !ScoreInRange(body.score)
    ensures r == Some(NameTooLong) <==>
      !Missing(body) && ScoreInRange(body.score) && LongerThan(body.playerName, MaxNameLength)
    ensures r == Some(EmailTooLong) <==>
      !Missing(body) && ScoreInRange(body.score) && !LongerThan(body.playerName, MaxNameLength)
      && LongerThan(body.playerEmail, MaxEmailLength)
    ensures r == None ==> body.score.Num? && 0.0 <= body.score.n <= MaxScore
  {
    if Falsy(body.playerName) || Falsy(body.playerEmail) || body.score == Undefined then
      Some(MissingFields)
    else if !body.score.Num? || body.score.n < 0.0 || body.score.n > MaxScore then
      Some(InvalidScore)
    else if LongerThan(body.playerName, MaxNameLength) then
      Some(NameTooLong)
    else if LongerThan(body.playerEmail, MaxEmailLength) then
      Some(EmailTooLong)
    else
      None
  }

  // ---------------------------------------------------------------------
  // String normalisation

  /** The characters `String.prototype.trim` removes. */
  predicate IsSpace(c: char) {
    || c == '\t' || c == '\n' || c == '\U{000B}' || c == '\U{000C}' || c == '\r'
    || c == ' ' || c == '\U{00A0}' || c == '\U{1680}'
    || ('\U{2000}' <= c <= '\U{200A}')
    || c == '\U{2028}' || c == '\U{2029}' || c == '\U{202F}' || c == '\U{205F}'
    || c == '\U{3000}' || c == '\U{FEFF}'
  }

  function TrimStart(s: string): (r: string)
    ensures |r| <= |s| && r == s[|s| - |r|..]
    ensures r == [] || !IsSpace(r[0])
    ensures forall i :: 0 <= i < |s| - |r| ==> IsSpace(s[i])
  {
    if s != [] && IsSpace(s[0]) then TrimStart(s[1..]) else s
  }

  function TrimEnd(s: string): (r: string)
    ensures |r| <= |s| && r == s[..|r|]
    ensures r == [] || !IsSpace(r[|r| - 1])
    ensures forall i :: |r| <= i < |s| ==> IsSpace(s[i])
  {
    if s != [] && IsSpace(s[|s| - 1]) then TrimEnd(s[..|s| - 1]) else s
  }

  /** `s.trim()`: the slice of `s` left after dropping white space at both
      ends. */
  function Trim(s: string): (r: string)
    ensures r == [] || (!IsSpace(r[0]) && !IsSpace(r[|r| - 1]))
    ensures var k := |s| - |TrimStart(s)|;
      && k + |r| <= |s| && r == s[k..k + |r|]
      && (forall i :: 0 <= i < k ==> IsSpace(s[i]))
      && (forall i :: k + |r| <= i < |s| ==> IsSpace(s[i]))
  {
    TrimEnd(TrimStart(s))
  }

  lemma TrimIdempotent(s: string)
    ensures Trim(Trim(s)) == Trim(s)
  {
    var r := Trim(s);
    assert TrimStart(r) == r;
    assert TrimEnd(r) == r;
  }

  function LowerChar(c: char): char {
    if 'A' <= c <= 'Z' then (c as int + 32) as char else c
  }

  /** `s.toLowerCase()`, for the letters A to Z. */
  function Lower(s: string): (r: string)
    ensures |r| == |s|
    ensures forall i :: 0 <= i < |s| ==> r[i] == LowerChar(s[i])
  {
    if s == [] then [] else [LowerChar(s[0])] + Lower(s[1..])
  }

  lemma LowerIdempotent(s: string)
    ensures Lower(Lower(s)) == Lower(s)
    ensures forall i :: 0 <= i < |s| ==> !('A' <= Lower(s)[i] <= 'Z')
  {
    var once := Lower(s);
    forall i | 0 <= i < |s|
      ensures Lower(once)[i] == once[i] && !('A' <= once[i] <= 'Z')
    {
      var c := s[i];
      assert once[i] == LowerChar(c);
      if 'A' <= c <= 'Z' {
        assert 'a' as int <= LowerChar(c) as int <= 'z' as int;
      }
    }
  }

  /** White space is left alone by lower-casing, so trimming and
      lower-casing can be done in either order. */
  lemma {:induction false} TrimLowerCommute(s: string)
    ensures Trim(Lower(s)) == Lower(Trim(s))
  {
    TrimStartLower(s);
    TrimEndLower(TrimStart(s));
  }

  lemma LowerCharKeepsSpace(c: char)
    ensures IsSpace(LowerChar(c)) <==> IsSpace(c)
  {
    if 'A' <= c <= 'Z' {
      assert 'a' <= LowerChar(c) <= 'z';
    }
  }

  lemma {:induction false} TrimStartLower(s: string)
    ensures TrimStart(Lower(s)) == Lower(TrimStart(s))
  {
    if s != [] {
      var l := Lower(s);
      assert l == [LowerChar(s[0])] + Lower(s[1..]);
      assert l[1..] == Lower(s[1..]);
      LowerCharKeepsSpace(s[0]);
      if IsSpace(s[0]) {
        TrimStartLower(s[1..]);
      }
    }
  }

  lemma {:induction false} TrimEndLower(s: string)
    ensures TrimEnd(Lower(s)) == Lower(TrimEnd(s))
  {
    if s != [] {
      var l := Lower(s);
      var init := s[..|s| - 1];
      assert l[..|s| - 1] == Lower(init);
      assert l[|s| - 1] == LowerChar(s[|s| - 1]);
      LowerCharKeepsSpace(s[|s| - 1]);
      if IsSpace(s[|s| - 1]) {
        TrimEndLower(init);
      }
    }
  }

  // ---------------------------------------------------------------------
  // Throttle

  /** The email the throttle query filters on. The handler lower-cases the
      address, and the query casts it through the schema's `trim` and
      `lowercase` setters, so the filter is the address in its stored form. */
  function ThrottleKey(email: string): (key: string)
    ensures key == Lower(Trim(email))
  {
    var t := Trim(email);
    TrimLowerCommute(email);
    assert Trim(Lower(email)) == Lower(t);
    LowerIdempotent(t);
    Lower(Trim(Lower(email)))
  }

  /** A stored record that blocks a new submission by `email` from `ip`. */
  predicate IsRecent(rec: ScoreRecord, email: string, ip: string, now: int) {
    (rec.playerEmail == email || rec.ipAddress == ip) && rec.date >= now - ThrottleWindow
  }

  /** The `findOne` query for a recent submission from the same email or IP. */
  function FindRecent(records: seq<ScoreRecord>, email: string, ip: string, now: int): (r: Option<ScoreRecord>)
    ensures r.Some? ==> r.value in records && IsRecent(r.value, email, ip, now)
    ensures r.None? <==> forall i :: 0 <= i < |records| ==> !IsRecent(records[i], email, ip, now)
  {
    if records == [] then None
    else if IsRecent(records[0], email, ip, now) then Some(records[0])
    else
      var r := FindRecent(records[1..], email, ip, now);
      assert forall i :: 1 <= i < |records| ==> records[i] == records[1..][i - 1];
      r
  }

  // ---------------------------------------------------------------------
  // Saving

  /** The highest stored score (the `sort({score: -1})` query), or None for
      an empty collection. */
  function HighestScore(records: seq<ScoreRecord>): (r: Option<real>)
    ensures r.None? <==> records == []
    ensures r.Some? ==> exists i :: 0 <= i < |records| && records[i].score == r.value
    ensures r.Some? ==> forall i :: 0 <= i < |records| ==> records[i].score <= r.value
  {
    if records == [] then None
    else
      var rest := HighestScore(records[1..]);
      assert forall i :: 1 <= i < |records| ==> records[i] == records[1..][i - 1];
      if rest.None? || records[0].score >= rest.value then Some(records[0].score) else rest
  }

  /** The record a valid submission stores: trimmed name, trimmed and
      lower-cased email, stamped with the caller's IP and the current time. */
  function NewRecord(name: string, email: string, score: real, ip: string, now: int): (rec: ScoreRecord)
    ensures rec.playerName == Trim(name) && rec.playerEmail == Lower(Trim(email))
    ensures |rec.playerName| <= |name| && |rec.playerEmail| <= |email|
    ensures rec.playerEmail == Lower(rec.playerEmail)
    ensures rec.score == score && rec.ipAddress == ip && rec.date == now
  {
    LowerIdempotent(Trim(email));
    ScoreRecord(Trim(name), Lower(Trim(email)), score, ip, now)
  }

  /** Storing a checked submission and answering 201: the new highest score
      is read back after the save, so the submission counts as a new high
      score exactly when no stored score exceeds it (a tie included). */
  function Save(records: seq<ScoreRecord>, name: string, email: string, score: real, ip: string, now: int)
    : (out: (Reply, seq<ScoreRecord>))
    ensures out.1 == records + [NewRecord(name, email, score, ip, now)]
    ensures out.0.Created? && out.0.playerName == Trim(name) && out.0.score == score
    ensures out.0.isNewHighScore <==> forall i :: 0 <= i < |records| ==> records[i].score <= score
  {
    var rec := NewRecord(name, email, score, ip, now);
    var saved := records + [rec];
    HighestAfterSave(records, rec);
    (Created(rec.playerName, rec.score, rec.score == HighestScore(saved).value), saved)
  }

  /** Read back after a save, the highest score is the new one exactly when
      no earlier score exceeds it. */
  lemma HighestAfterSave(records: seq<ScoreRecord>, rec: ScoreRecord)
    ensures HighestScore(records + [rec]).Some?
    ensures HighestScore(records + [rec]).value == rec.score
            <==> forall i :: 0 <= i < |records| ==> records[i].score <= rec.score
  {
    var saved := records + [rec];
    assert saved[|records|] == rec;
    assert forall i :: 0 <= i < |records| ==> saved[i] == records[i];
  }

  /** POST /api/scores over the collection `records`, from `ip` at time
      `now`: the reply and the collection afterwards. A non-string email
      fails at `toLowerCase` and a non-string name at `trim`; both end in
      the 500 answer. */
  function Submit(records: seq<ScoreRecord>, body: Submission, ip: string, now: int)
    : (out: (Reply, seq<ScoreRecord>))
    ensures Validate(body).Some? ==> out == (BadRequest(Validate(body).value), records)
    ensures !out.0.Created? ==> out.1 == records
    ensures out.0 == TooManyRequests <==>
      Validate(body).None? && body.playerEmail.Str?
      && FindRecent(records, ThrottleKey(body.playerEmail.s), ip, now).Some?
    ensures out.0 == InternalError <==>
      Validate(body).None? && (!body.playerEmail.Str? ||
        (FindRecent(records, ThrottleKey(body.playerEmail.s), ip, now).None? && !body.playerName.Str?))
    ensures out.0.Created? <==>
      && Validate(body).None? && body.playerName.Str? && body.playerEmail.Str?
      && FindRecent(records, ThrottleKey(body.playerEmail.s), ip, now).None?
    ensures out.0.Created? ==>
      out == Save(records, body.playerName.s, body.playerEmail.s, body.score.n, ip, now)
  {
    match Validate(body)
    case Some(reason) => (BadRequest(reason), records)
    case None =>
      if !body.playerEmail.Str? then (InternalError, records)
      else if FindRecent(records, ThrottleKey(body.playerEmail.s), ip, now).Some? then
        (TooManyRequests, records)
      else if !body.playerName.Str? then (InternalError, records)
      else Save(records, body.playerName.s, body.playerEmail.s, body.score.n, ip, now)
  }

  /** A stored record always satisfies the schema's length bounds, because
      the lengths are checked before trimming. */
  lemma StoredWithinSchema(records: seq<ScoreRecord>, body: Submission, ip: string, now: int)
    requires Submit(records, body, ip, now).0.Created?
    ensures var rec := Submit(records, body, ip, now).1[|records|];
      |rec.playerName| <= MaxNameLength && |rec.playerEmail| <= MaxEmailLength
      && 0.0 <= rec.score <= MaxScore
  {
    var name, email := body.playerName.s, body.playerEmail.s;
    var rec := NewRecord(name, email, body.score.n, ip, now);
    assert Submit(records, body, ip, now).1 == records + [rec];
    assert !LongerThan(body.playerName, MaxNameLength) && !LongerThan(body.playerEmail, MaxEmailLength);
    assert |rec.playerName| <= |name| <= MaxNameLength;
    assert |rec.playerEmail| <= |email| <= MaxEmailLength;
  }

  /** Padding the address does not get past the throttle: within five
      minutes of a record stored for `email`, the same address sent again
      with a leading space is refused, whatever the IP. */
  lemma PaddedEmailIsThrottled(records: seq<ScoreRecord>, i: int, email: string,
                               body: Submission, ip: string, now: int)
    requires 0 <= i < |records|
    requires records[i].playerEmail == Lower(Trim(email))
    requires records[i].date >= now - ThrottleWindow
    requires body.playerEmail == Str([' '] + email)
    requires Validate(body).None?
    ensures Submit(records, body, ip, now).0 == TooManyRequests
  {
    var padded := [' '] + email;
    assert padded[1..] == email;
    assert TrimStart(padded) == TrimStart(email);
    assert ThrottleKey(padded) == records[i].playerEmail;
    assert IsRecent(records[i], ThrottleKey(padded), ip, now);
  }

  // ---------------------------------------------------------------------
  // Pagination

  /** `parseInt(q) || fallback`, given what `parseInt` returned (None for
      NaN). */
  function OrDefault(parsed: Option<int>, fallback: int): (r: int)
    requires fallback != 0
    ensures r != 0
    ensures parsed.Some? && parsed.value != 0 ==> r == parsed.value
    ensures parsed.None? || parsed.value == 0 ==> r == fallback
  {
    if parsed.None? || parsed.value == 0 then fallback else parsed.value
  }

  /** `Math.ceil(total / limit)` for a non-zero integer limit. */
  function CeilDiv(total: nat, limit: int): (r: int)
    requires limit != 0
    ensures limit > 0 ==> r >= 0 && (r - 1) * limit < total <= r * limit
    ensures limit < 0 ==> r <= 0
  {
    if limit > 0 then (total + limit - 1) / limit else -(total / -limit)
  }

  const DefaultLimit: int := 10
  const DefaultPage: int := 1
  const MaxPageSize: int := 100

  /** The listing answer; `data` is the window of the ranked collection. */
  datatype Listing =
    | Page(data: seq<ScoreRecord>, currentPage: int, totalPages: int,
           totalScores: nat, hasNext: bool, hasPrev: bool)
    | ListingError

  function Min(a: int, b: int): int {
    if a <= b then a else b
  }

  /** GET /api/scores over `ranked`, the collection in the query's order
      (score, then date, both descending). The database refuses a negative
      skip (the 500 answer) and reads a negative limit as its absolute
      value. */
  function ListScores(ranked: seq<ScoreRecord>, limitQuery: Option<int>, pageQuery: Option<int>)
    : (r: Listing)
    ensures var limit := OrDefault(limitQuery, DefaultLimit);
            var page := OrDefault(pageQuery, DefaultPage);
            var skip := (page - 1) * limit;
      && (r.ListingError? <==> skip < 0)
      && (r.Page? ==>
           && r.currentPage == page
           && r.totalScores == |ranked|
           && r.totalPages == CeilDiv(|ranked|, limit)
           && (r.hasNext <==> page < r.totalPages)
           && (r.hasPrev <==> page > 1)
           && (skip >= |ranked| ==> r.data == [])
           && (skip < |ranked| ==> r.data <= ranked[skip..])
           && (limit > 0 && skip <= |ranked| ==> |r.data| == Min(Min(limit, MaxPageSize), |ranked| - skip)))
  {
    var limit := OrDefault(limitQuery, DefaultLimit);
    var page := OrDefault(pageQuery, DefaultPage);
    var skip := (page - 1) * limit;
    if skip < 0 then ListingError
    else
      var take := Min(limit, MaxPageSize);
      var count := if take < 0 then -take else take;
      var from := Min(skip, |ranked|);
      var to := Min(skip + count, |ranked|);
      var totalPages := CeilDiv(|ranked|, limit);
      Page(ranked[from..to], page, totalPages, |ranked|, page < totalPages, page > 1)
  }

  /** With a positive limit, `hasNext` says exactly that records exist past
      the page: the page's end `page * limit` is before the total. */
  lemma HasNextIffMoreRecords(total: nat, limit: int, page: int)
    requires limit > 0
    ensures page < CeilDiv(total, limit) <==> page * limit < total
  {
    var c := CeilDiv(total, limit);
    if page < c {
      MulMonotone(page, c - 1, limit);
    } else {
      MulMonotone(c, page, limit);
    }
  }

  lemma MulMonotone(a: int, b: int, k: int)
    requires a <= b && 0 < k
    ensures a * k <= b * k
  {
    var d := b - a;
    assert b * k == a * k + d * k;
    assert d * k >= 0;
  }

  /** With a limit above the page-size cap the skip still advances by the
      whole limit: page `page` lists the 100 ranks from its skip on, and
      page `page + 1` starts a whole limit later, so the ranks between the
      two are never listed. */
  lemma OversizedLimitSkipsRanks(ranked: seq<ScoreRecord>, limit: int, page: int)
    requires limit > MaxPageSize && page >= 1
    requires page * limit <= |ranked|
    ensures var skip := (page - 1) * limit;
      && skip + MaxPageSize < page * limit
      && ListScores(ranked, Some(limit), Some(page)).data == ranked[skip..skip + MaxPageSize]
      && ListScores(ranked, Some(limit), Some(page + 1)).data
           == ranked[page * limit..Min(page * limit + MaxPageSize, |ranked|)]
  {
    var skip := (page - 1) * limit;
    assert skip == page * limit - limit;
    MulMonotone(1, page, limit);
    assert (page + 1 - 1) * limit == page * limit;
  }
}
