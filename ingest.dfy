/** Validation of an incoming beacon: the request headers become either an
    HTTP 400 answer or one event for the writer. The three servers of the
    repository (`app/post.go`, `app/app.go`, `main.go`) run the same checks
    under three spellings of the header names, so the names are a parameter. */
module Ingest {
  import opened Wrappers
  import opened Ints
  import opened Ev
  import opened Decimal

  /** The request headers; Go's `Header.Get` yields "" for a missing one. */
  type Headers = map<string, string>

  function Get(h: Headers, name: string): string {
    Lookup(h, name, "")
  }

  datatype HeaderNames = HeaderNames(
    typ: string, usr: string, sess: string, cid: string,
    scrolled: string, pageSeconds: string)

  /** `app/post.go`: unprefixed names. */
  const PostNames := HeaderNames("TYPE", "USR", "SESS", "CID", "SCROLLED", "PAGE_SECONDS")
  /** `app/app.go`: `X_` names. */
  const AppNames := HeaderNames("X_TYPE", "X_USR", "X_SESS", "X_CID", "X_SCROLLED", "X_PAGE_SECONDS")
  /** `main.go`: `LSTN_` names, the type under `LSTN_T`. */
  const MainNames := HeaderNames("LSTN_T", "LSTN_USR", "LSTN_SESS", "LSTN_CID", "LSTN_SCROLLED", "LSTN_PAGE_SECONDS")

  /** The header whose check failed. */
  datatype Field = TypeField | UsrField | SessField | CidField | ScrolledField | PageSecondsField

  /** What the handler does: answers 400 naming the bad header, or sends
      the event on the events channel (and answers 200). */
  datatype Outcome = BadRequest(field: Field) | Accepted(e: Ev) {
    function Status(): int {
      if BadRequest? then 400 else 200
    }
  }

  /** `strconv.ParseFloat(s, 32)` followed by `float32(...)`; floating point
      is not part of this model, so the parse is supplied by the caller. */
  type FloatParser = string -> Option<Float32>

  /** One check, in isolation: does header `f` pass for an event of type `t`? */
  predicate Passes(names: HeaderNames, h: Headers, parseFloat: FloatParser, f: Field) {
    match f
    case TypeField => TypeByName(Get(h, names.typ)).Some?
    case UsrField => ParseUint32(Get(h, names.usr)).Some?
    case SessField => ParseUint32(Get(h, names.sess)).Some?
    case CidField => ParseUint32(Get(h, names.cid)).Some?
    case ScrolledField => parseFloat(Get(h, names.scrolled)).Some?
    case PageSecondsField => ParseUint32(Get(h, names.pageSeconds)).Some?
  }

  /** The checks a request of type `t` goes through, in the order they run. */
  function ChecksFor(t: EvType): (fs: seq<Field>)
    ensures |fs| >= 4 && fs[..4] == [TypeField, UsrField, SessField, CidField]
  {
    [TypeField, UsrField, SessField, CidField] +
    (if t == UNLOAD then [ScrolledField] else if t == TIME then [PageSecondsField] else [])
  }

  /** The handler; `now` is the clock's Unix time in seconds, stored as
      `uint32(time.Now().Unix())`. */
  function HandlePost(names: HeaderNames, h: Headers, now: int, parseFloat: FloatParser): Outcome {
    var t := TypeByName(Get(h, names.typ));
    if t.None? then BadRequest(TypeField)
    else
      var usr := ParseUint32(Get(h, names.usr));
      if usr.None? then BadRequest(UsrField)
      else
        var sess := ParseUint32(Get(h, names.sess));
        if sess.None? then BadRequest(SessField)
        else
          var cid := ParseUint32(Get(h, names.cid));
          if cid.None? then BadRequest(CidField)
          else
            var e := Ev(t.value, ToUint32(now), usr.value, sess.value, cid.value, None, None);
            if t.value == UNLOAD then
              var scrolled := parseFloat(Get(h, names.scrolled));
              if scrolled.None? then BadRequest(ScrolledField)
              else Accepted(e.(scrolled := scrolled))
            else if t.value == TIME then
              var pageSeconds := ParseUint32(Get(h, names.pageSeconds));
              if pageSeconds.None? then BadRequest(PageSecondsField)
              else Accepted(e.(pageSeconds := pageSeconds))
            else Accepted(e)
  }

  /** The first failing check decides the answer: the handler answers 400
      for field `f` exactly when every check before `f` passed and `f`
      failed, and it accepts exactly when every check for the type passed. */
  lemma FirstFailureDecides(names: HeaderNames, h: Headers, now: int, parseFloat: FloatParser)
    ensures var r := HandlePost(names, h, now, parseFloat);
      var t := TypeByName(Get(h, names.typ));
      && (r == BadRequest(TypeField) <==> t.None?)
      && (t.Some? ==>
            var fs := ChecksFor(t.value);
            && (r.Accepted? <==> forall i :: 0 <= i < |fs| ==> Passes(names, h, parseFloat, fs[i]))
            && (forall k :: 0 <= k < |fs| ==>
                  (r == BadRequest(fs[k]) <==>
                     (forall i :: 0 <= i < k ==> Passes(names, h, parseFloat, fs[i]))
                     && !Passes(names, h, parseFloat, fs[k]))))
  {
    var t := TypeByName(Get(h, names.typ));
    if t.Some? {
      var fs := ChecksFor(t.value);
      assert fs[0] == TypeField && fs[1] == UsrField && fs[2] == SessField && fs[3] == CidField;
      assert |fs| == 4 || |fs| == 5;
      assert |fs| == 5 ==> fs[4] == (if t.value == UNLOAD then ScrolledField else PageSecondsField);
    }
  }

  /** An accepted event carries the parsed type, ids and the clock's time;
      only the type's own optional field is set. */
  lemma AcceptedEvent(names: HeaderNames, h: Headers, now: int, parseFloat: FloatParser)
    requires HandlePost(names, h, now, parseFloat).Accepted?
    ensures var e := HandlePost(names, h, now, parseFloat).e;
      && Some(e.evType) == TypeByName(Get(h, names.typ))
      && Some(e.usr) == ParseUint32(Get(h, names.usr))
      && Some(e.sess) == ParseUint32(Get(h, names.sess))
      && Some(e.cid) == ParseUint32(Get(h, names.cid))
      && e.time == ToUint32(now)
      && (e.evType == UNLOAD <==> e.scrolled.Some?)
      && (e.scrolled.Some? ==> e.scrolled == parseFloat(Get(h, names.scrolled)))
      && (e.evType == TIME <==> e.pageSeconds.Some?)
      && (e.pageSeconds.Some? ==> e.pageSeconds == ParseUint32(Get(h, names.pageSeconds)))
  {
  }

  /** The headers a beacon sends for event `e` (the inverse of the handler):
      the type's name, the ids in decimal, and the type's own extra field. */
  function BeaconHeaders(names: HeaderNames, e: Ev, scrolledText: string): (h: Headers)
    requires e.evType in EvTypeName
    ensures Get(h, names.typ) == EvTypeName[e.evType]
  {
    var base := map[names.typ := EvTypeName[e.evType]];
    var withIds := base[names.usr := Format(e.usr)][names.sess := Format(e.sess)][names.cid := Format(e.cid)];
    var full :=
      if e.evType == UNLOAD then withIds[names.scrolled := scrolledText]
      else if e.evType == TIME && e.pageSeconds.Some? then withIds[names.pageSeconds := Format(e.pageSeconds.value)]
      else withIds;
    full[names.typ := EvTypeName[e.evType]]
  }

  /** The header names a server reads are pairwise different. */
  predicate Distinct(names: HeaderNames) {
    var all := [names.typ, names.usr, names.sess, names.cid, names.scrolled, names.pageSeconds];
    forall i, j :: 0 <= i < j < |all| ==> all[i] != all[j]
  }

  /** The shape of every event the handler accepts: a named type and
      exactly that type's optional field. */
  predicate WellFormed(e: Ev) {
    && e.evType in EvTypeName
    && (e.evType == UNLOAD <==> e.scrolled.Some?)
    && (e.evType == TIME <==> e.pageSeconds.Some?)
  }

  /** Such an event comes back unchanged (with the server's time) from the
      headers a beacon sends for it: validation inverts the beacon. */
  lemma BeaconRoundTrip(names: HeaderNames, e: Ev, scrolledText: string, now: int, parseFloat: FloatParser)
    requires Distinct(names) && WellFormed(e)
    requires e.evType == UNLOAD ==> parseFloat(scrolledText) == e.scrolled
    ensures HandlePost(names, BeaconHeaders(names, e, scrolledText), now, parseFloat)
         == Accepted(e.(time := ToUint32(now)))
  {
    var h := BeaconHeaders(names, e, scrolledText);
    var all := [names.typ, names.usr, names.sess, names.cid, names.scrolled, names.pageSeconds];
    assert all[1] != all[0] && all[2] != all[0] && all[3] != all[0] && all[2] != all[1] && all[3] != all[1] && all[3] != all[2];
    assert all[4] != all[0] && all[4] != all[1] && all[4] != all[2] && all[4] != all[3];
    assert all[5] != all[0] && all[5] != all[1] && all[5] != all[2] && all[5] != all[3];
    assert Get(h, names.usr) == Format(e.usr);
    assert Get(h, names.sess) == Format(e.sess);
    assert Get(h, names.cid) == Format(e.cid);
    ParseFormatRoundTrip(e.usr);
    ParseFormatRoundTrip(e.sess);
    ParseFormatRoundTrip(e.cid);
    if e.evType == TIME {
      assert Get(h, names.pageSeconds) == Format(e.pageSeconds.value);
      ParseFormatRoundTrip(e.pageSeconds.value);
    } else if e.evType == UNLOAD {
      assert Get(h, names.scrolled) == scrolledText;
    }
  }

  /** Where `app/app.go` sends a request. */
  datatype Route = GetData | GetJS | NotFound | Post | NoHandler

  function HandleRequest(verb: string, path: string): (r: Route)
    ensures r == Post <==> verb == "POST"
    ensures r == GetData <==> verb == "GET" && path == "/data"
    ensures r == GetJS <==> verb == "GET" && path == "/js"
    ensures r == NotFound <==> verb == "GET" && path != "/data" && path != "/js"
    ensures r == NoHandler <==> verb != "GET" && verb != "POST"
  {
    if verb == "GET" then
      if path == "/data" then GetData else if path == "/js" then GetJS else NotFound
    else if verb == "POST" then Post
    else NoHandler
  }

  /** `main.go` has no routing: every request is an event submission. */
  function MainHandleRequest(h: Headers, now: int, parseFloat: FloatParser): (r: Outcome)
    ensures r == BadRequest(TypeField) <==> TypeByName(Get(h, "LSTN_T")).None?
    ensures r.Accepted? ==> Some(r.e.usr) == ParseUint32(Get(h, "LSTN_USR"))
  {
    HandlePost(MainNames, h, now, parseFloat)
  }
}
