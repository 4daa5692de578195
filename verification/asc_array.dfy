/**
 * The version-keyed AssemblyScript `Array<T>`: one logical array type over two
 * binary-incompatible layouts, the one of API versions up to 0.0.4 and the one
 * of later versions. Every operation picks or follows the layout and delegates
 * to it; errors from the layout are passed on unchanged.
 *
 * The two layouts themselves are not part of this model: their operations are
 * a parameter (`Layouts`), so every property below holds whatever they do.
 */
module AscArrays {
  import opened Ints
  import opened Errors
  import opened SemVer

  /** The last API version that uses the legacy layout. */
  const LastLegacyVersion: Version := Version(0, 0, 4)

  /** The one dispatch rule: `version <= 0.0.4`. */
  predicate IsLegacy(v: Version) {
    LessOrEqual(v, LastLegacyVersion)
  }

  /**
   * The guest heap as the dispatcher sees it: the API version it reports, and
   * memory of some type `M` that only the layouts read and change.
   */
  datatype Heap<M> = Heap(apiVersion: Version, memory: M)

  /**
   * The operations of one inner layout (`v0_0_4::Array` or `v0_0_5::Array`),
   * each of which may fail. `create` may change the heap, whether or not it
   * succeeds.
   */
  datatype Layout<!T, !M, !A> = Layout(
    create: (seq<T>, Heap<M>) -> (Result<A>, Heap<M>),
    toVec: (A, Heap<M>) -> Result<seq<T>>,
    toAscBytes: A -> Result<seq<u8>>,
    fromAscBytes: (seq<u8>, Version) -> Result<A>)

  datatype Layouts<!T, !M, !A4, !A5> = Layouts(v0_0_4: Layout<T, M, A4>, v0_0_5: Layout<T, M, A5>)

  datatype LayoutKind = Legacy | Current

  function KindFor(v: Version): LayoutKind {
    if IsLegacy(v) then Legacy else Current
  }

  /** The tagged union over the two layouts. */
  datatype Array<A4, A5> = ApiVersion0_0_4(legacy: A4) | ApiVersion0_0_5(current: A5) {
    function Kind(): LayoutKind {
      if ApiVersion0_0_4? then Legacy else Current
    }
  }

  /** `version <= 0.0.4` holds exactly for 0.0.0 through 0.0.4. */
  lemma IsLegacyExactly(v: Version)
    ensures IsLegacy(v) <==> v.major == 0 && v.minor == 0 && v.patch <= 4
  {
    LessOrEqualIsLexicographic(v, LastLegacyVersion);
  }

  /** 0.0.3 and 0.0.4 select the legacy layout; 0.0.5, 0.1.0 and 1.0.0 the current one. */
  lemma DispatchExamples()
    ensures KindFor(Version(0, 0, 3)) == Legacy && KindFor(Version(0, 0, 4)) == Legacy
    ensures KindFor(Version(0, 0, 5)) == Current && KindFor(Version(0, 1, 0)) == Current
    ensures KindFor(Version(1, 0, 0)) == Current
  {
  }

  /**
   * `new`: asks the heap for its API version and builds the array in the
   * layout that version selects; an error from the layout is returned as is,
   * and the heap is whatever the layout left it as.
   */
  function New<T, M, A4, A5>(layouts: Layouts<T, M, A4, A5>, content: seq<T>, heap: Heap<M>)
    : (r: (Result<Array<A4, A5>>, Heap<M>))
    ensures r.0.Ok? ==> r.0.value.Kind() == KindFor(heap.apiVersion)
    ensures IsLegacy(heap.apiVersion) ==>
      var (inner, heap') := layouts.v0_0_4.create(content, heap);
      r.1 == heap' && (r.0.Ok? <==> inner.Ok?) &&
      (inner.Ok? ==> r.0.value == ApiVersion0_0_4(inner.value)) &&
      (inner.Err? ==> r.0.error == inner.error)
    ensures !IsLegacy(heap.apiVersion) ==>
      var (inner, heap') := layouts.v0_0_5.create(content, heap);
      r.1 == heap' && (r.0.Ok? <==> inner.Ok?) &&
      (inner.Ok? ==> r.0.value == ApiVersion0_0_5(inner.value)) &&
      (inner.Err? ==> r.0.error == inner.error)
  {
    if IsLegacy(heap.apiVersion) then
      var (inner, heap') := layouts.v0_0_4.create(content, heap);
      (var a :- inner; Ok(ApiVersion0_0_4(a)), heap')
    else
      var (inner, heap') := layouts.v0_0_5.create(content, heap);
      (var a :- inner; Ok(ApiVersion0_0_5(a)), heap')
  }

  /** `to_vec`: the elements as the layout that is present reads them. */
  function ToVec<T, M, A4, A5>(layouts: Layouts<T, M, A4, A5>, arr: Array<A4, A5>, heap: Heap<M>)
    : (r: Result<seq<T>>)
    ensures arr.ApiVersion0_0_4? ==> r == layouts.v0_0_4.toVec(arr.legacy, heap)
    ensures arr.ApiVersion0_0_5? ==> r == layouts.v0_0_5.toVec(arr.current, heap)
  {
    match arr
    case ApiVersion0_0_4(a) => layouts.v0_0_4.toVec(a, heap)
    case ApiVersion0_0_5(a) => layouts.v0_0_5.toVec(a, heap)
  }

  /** `to_asc_bytes`: the bytes of the layout that is present. */
  function ToAscBytes<T, M, A4, A5>(layouts: Layouts<T, M, A4, A5>, arr: Array<A4, A5>)
    : (r: Result<seq<u8>>)
    ensures arr.ApiVersion0_0_4? ==> r == layouts.v0_0_4.toAscBytes(arr.legacy)
    ensures arr.ApiVersion0_0_5? ==> r == layouts.v0_0_5.toAscBytes(arr.current)
  {
    match arr
    case ApiVersion0_0_4(a) => layouts.v0_0_4.toAscBytes(a)
    case ApiVersion0_0_5(a) => layouts.v0_0_5.toAscBytes(a)
  }

  /**
   * `from_asc_bytes`: the same rule as `New`, applied to the version passed in
   * rather than to the heap's; the version is handed on to the layout.
   */
  function FromAscBytes<T, M, A4, A5>(layouts: Layouts<T, M, A4, A5>, ascObj: seq<u8>, apiVersion: Version)
    : (r: Result<Array<A4, A5>>)
    ensures r.Ok? ==> r.value.Kind() == KindFor(apiVersion)
    ensures IsLegacy(apiVersion) ==>
      var inner := layouts.v0_0_4.fromAscBytes(ascObj, apiVersion);
      (r.Ok? <==> inner.Ok?) &&
      (inner.Ok? ==> r.value == ApiVersion0_0_4(inner.value)) &&
      (inner.Err? ==> r.error == inner.error)
    ensures !IsLegacy(apiVersion) ==>
      var inner := layouts.v0_0_5.fromAscBytes(ascObj, apiVersion);
      (r.Ok? <==> inner.Ok?) &&
      (inner.Ok? ==> r.value == ApiVersion0_0_5(inner.value)) &&
      (inner.Err? ==> r.error == inner.error)
  {
    if IsLegacy(apiVersion) then
      var a :- layouts.v0_0_4.fromAscBytes(ascObj, apiVersion);
      Ok(ApiVersion0_0_4(a))
    else
      var a :- layouts.v0_0_5.fromAscBytes(ascObj, apiVersion);
      Ok(ApiVersion0_0_5(a))
  }

  /**
   * For one API version, `New` and `FromAscBytes` choose the same layout: an
   * array built on a heap of version `v` and one decoded under `v` never differ
   * in kind.
   */
  lemma NewAndFromAscBytesAgree<T, M, A4, A5>(
    layouts: Layouts<T, M, A4, A5>, content: seq<T>, heap: Heap<M>, ascObj: seq<u8>)
    ensures var built := New(layouts, content, heap).0;
      var decoded := FromAscBytes(layouts, ascObj, heap.apiVersion);
      built.Ok? && decoded.Ok? ==> built.value.Kind() == decoded.value.Kind()
  {
  }

  /** A layout whose `to_vec` gives back what its `new` was given. */
  ghost predicate CreateThenToVec<T(!new), M(!new), A>(layout: Layout<T, M, A>) {
    forall content, heap ::
      layout.create(content, heap).0.Ok? ==>
        layout.toVec(layout.create(content, heap).0.value, layout.create(content, heap).1) == Ok(content)
  }

  /** When both layouts keep their elements, so does the dispatcher. */
  lemma NewThenToVec<T(!new), M(!new), A4, A5>(layouts: Layouts<T, M, A4, A5>, content: seq<T>, heap: Heap<M>)
    requires CreateThenToVec(layouts.v0_0_4) && CreateThenToVec(layouts.v0_0_5)
    ensures var (r, heap') := New(layouts, content, heap);
      r.Ok? ==> ToVec(layouts, r.value, heap') == Ok(content)
  {
  }

  /** A layout that decodes its own bytes, under every version of its range, to the same value. */
  ghost predicate BytesRoundTrip<T, M, A(!new)>(layout: Layout<T, M, A>, legacy: bool) {
    forall a, v ::
      IsLegacy(v) == legacy && layout.toAscBytes(a).Ok? ==>
        layout.fromAscBytes(layout.toAscBytes(a).value, v) == Ok(a)
  }

  /**
   * When both layouts decode their own bytes, the dispatcher decodes the bytes
   * of an array under any version that selects that array's layout.
   */
  lemma ToAscBytesThenFromAscBytes<T, M, A4(!new), A5(!new)>(
    layouts: Layouts<T, M, A4, A5>, arr: Array<A4, A5>, v: Version)
    requires BytesRoundTrip(layouts.v0_0_4, true) && BytesRoundTrip(layouts.v0_0_5, false)
    requires arr.Kind() == KindFor(v)
    ensures ToAscBytes(layouts, arr).Ok? ==>
      FromAscBytes(layouts, ToAscBytes(layouts, arr).value, v) == Ok(arr)
  {
  }
}
