/** The tracking event record of `ev/ev.pb.go` and its event-type enum. */
module Ev {
  import opened Wrappers
  import opened Ints

  /** A protobuf enum is open: the stored number of an `Ev` may be any
      int32, and only three of them have names. */
  type EvType = int32

  const LOAD: EvType := 0
  const UNLOAD: EvType := 1
  const TIME: EvType := 2

  /** The enum-name maps generated for `EvType`. */
  const EvTypeName: map<int32, string> := map[0 := "LOAD", 1 := "UNLOAD", 2 := "TIME"]
  const EvTypeValue: map<string, int32> := map["LOAD" := 0, "UNLOAD" := 1, "TIME" := 2]

  /** The bits of a float32; float semantics are not part of this model. */
  type Float32 = bv32

  /** One event. `pageSeconds` and `scrolled` are the two optional fields
      (Go pointers, nil when absent). */
  datatype Ev = Ev(
    evType: EvType,
    time: uint32,
    usr: uint32,
    sess: uint32,
    cid: uint32,
    pageSeconds: Option<uint32>,
    scrolled: Option<Float32>)

  /** The zero message `&ev.Ev{}`. */
  const ZeroEv: Ev := Ev(LOAD, 0, 0, 0, 0, None, None)

  /** Lookup of a type name, as `EvType_value[name]` with its `ok` flag. */
  function TypeByName(name: string): (r: Option<EvType>)
    ensures r.Some? <==> name == "LOAD" || name == "UNLOAD" || name == "TIME"
    ensures r.Some? ==> r.value in EvTypeName && EvTypeName[r.value] == name
  {
    if name in EvTypeValue then Some(EvTypeValue[name]) else None
  }

  // The nil-guarded getters; a `nil *Ev` is `None`.

  function GetEvType(m: Option<Ev>): (r: EvType)
    ensures m.None? ==> r == LOAD
    ensures m.Some? ==> r == m.value.evType
  {
    if m.Some? then m.value.evType else LOAD
  }

  function GetTime(m: Option<Ev>): (r: uint32)
    ensures m.None? ==> r == 0
    ensures m.Some? ==> r == m.value.time
  {
    if m.Some? then m.value.time else 0
  }

  function GetUsr(m: Option<Ev>): (r: uint32)
    ensures m.None? ==> r == 0
    ensures m.Some? ==> r == m.value.usr
  {
    if m.Some? then m.value.usr else 0
  }

  function GetSess(m: Option<Ev>): (r: uint32)
    ensures m.None? ==> r == 0
    ensures m.Some? ==> r == m.value.sess
  {
    if m.Some? then m.value.sess else 0
  }

  function GetCid(m: Option<Ev>): (r: uint32)
    ensures m.None? ==> r == 0
    ensures m.Some? ==> r == m.value.cid
  {
    if m.Some? then m.value.cid else 0
  }

  function GetPageSeconds(m: Option<Ev>): (r: uint32)
    ensures m.None? || m.value.pageSeconds.None? ==> r == 0
    ensures m.Some? && m.value.pageSeconds.Some? ==> r == m.value.pageSeconds.value
  {
    if m.Some? && m.value.pageSeconds.Some? then m.value.pageSeconds.value else 0
  }

  /** The two enum maps are inverse bijections between exactly the three
      names and the numbers 0, 1, 2. */
  lemma NameValueInverse()
    ensures EvTypeName.Keys == {LOAD, UNLOAD, TIME}
    ensures EvTypeValue.Keys == {"LOAD", "UNLOAD", "TIME"}
    ensures forall n :: n in EvTypeName ==> EvTypeName[n] in EvTypeValue && EvTypeValue[EvTypeName[n]] == n
    ensures forall s :: s in EvTypeValue ==> EvTypeValue[s] in EvTypeName && EvTypeName[EvTypeValue[s]] == s
  {
  }

  /** Every getter reads a nil message exactly as it reads the zero message:
      the defaults are the zero values, and the zero type is LOAD. */
  lemma NilReadsAsZero()
    ensures GetEvType(None) == GetEvType(Some(ZeroEv)) == LOAD
    ensures GetTime(None) == GetTime(Some(ZeroEv)) == 0
    ensures GetUsr(None) == GetUsr(Some(ZeroEv)) == 0
    ensures GetSess(None) == GetSess(Some(ZeroEv)) == 0
    ensures GetCid(None) == GetCid(Some(ZeroEv)) == 0
    ensures GetPageSeconds(None) == GetPageSeconds(Some(ZeroEv)) == 0
  {
  }
}
