/** The request pipeline of FullStack.Svc. An operation checks the request,
    operates, and checks the response; a mapped operation also maps the
    request in, checks the inner request and response, and maps the response
    out. Progress is recorded in a mutable `OperationData`; a validation
    failure escapes as an `InvalidItemsException`, and any other exception is
    wrapped in an `OperationException("Unexpected error")`. The overridable
    members are parameters; request and response values are of one type `V`,
    as `OperationData` holds them as `object`. */
module Svc {
  import opened Common

  datatype OperationStage =
    | CheckingRequest
    | MappingRequest
    | CheckingInnerRequest
    | Operating
    | CheckingInnerResponse
    | MappingResponse
    | CheckingResponse

  /** One validation error. */
  datatype InvalidItem = InvalidItem(navigation: Option<string>, propertyName: string, errorMessage: string)

  /** A list of errors, or `null`. */
  type Errors = Option<seq<InvalidItem>>

  /** The exceptions of the pipeline: `InvalidItemsException`,
      `OperationException`, and any other exception a member throws. */
  datatype Exception<V> =
    | InvalidItems(errors: seq<InvalidItem>, data: OperationData<V>, message: string)
    | OperationError(data: OperationData<V>, message: string, inner: Exception<V>)
    | Thrown(description: string)

  /** A call that returned a value or threw. */
  datatype Completion<T, V> = Returned(value: T) | Raised(ex: Exception<V>)

  const RequestInvalid: string := "Request is invalid"
  const ResponseInvalid: string := "Response is invalid"
  const InitialRequestInvalid: string := "Initial request is invalid"
  const InnerRequestInvalid: string := "Inner request is invalid"
  const InnerResponseInvalid: string := "Inner response is invalid"
  const FinalResponseInvalid: string := "Final response is invalid"
  const UnexpectedError: string := "Unexpected error"

  /** The values of an `OperationData`, and every stage assigned to it so
      far, in order. */
  datatype Record<V> = Record(
    stage: OperationStage,
    request: Option<V>,
    innerRequest: Option<V>,
    innerResponse: Option<V>,
    response: Option<V>,
    stages: seq<OperationStage>)

  /** `new OperationData { }`: the stage is the enum's zero value and nothing
      is recorded. */
  function Fresh<V>(): Record<V>
  {
    Record(CheckingRequest, None, None, None, None, [])
  }

  /** `OperationData`. `stages` is the history of assignments to `Stage`. */
  class OperationData<V> {
    var stage: OperationStage
    var request: Option<V>
    var innerRequest: Option<V>
    var innerResponse: Option<V>
    var response: Option<V>
    ghost var stages: seq<OperationStage>

    constructor ()
      ensures Snapshot() == Fresh()
    {
      stage := CheckingRequest;
      request := None;
      innerRequest := None;
      innerResponse := None;
      response := None;
      stages := [];
    }

    ghost function Snapshot(): Record<V>
      reads this
    {
      Record(stage, request, innerRequest, innerResponse, response, stages)
    }

    /** `opData.Stage = s`. */
    method SetStage(s: OperationStage)
      modifies this
      ensures Snapshot() == old(Snapshot()).(stage := s, stages := old(stages) + [s])
    {
      stage := s;
      stages := stages + [s];
    }
  }

  /** The result of a stage: what it returned or threw, and the record after it. */
  datatype Step<T, V> = Step(result: Completion<T, V>, record: Record<V>)

  // -----------------------------------------------------------------------
  // OperationBase

  /** The default `CheckRequest`/`CheckResponse`: the object's validation
      errors, which are never `null`. */
  function DefaultCheck<V>(validate: V -> seq<InvalidItem>, x: V): Completion<Errors, V>
  {
    Returned(Some(validate(x)))
  }

  /** `AssertValid(errors, operationData, message)`: throws an
      `InvalidItemsException` carrying exactly its arguments when the errors
      are neither `null` nor empty; has no other effect. */
  function AssertValid<V>(errors: Errors, d: OperationData<V>, message: string): (r: Completion<(), V>)
    ensures r.Raised? <==> errors.Some? && |errors.value| != 0
    ensures r.Raised? ==> r.ex == InvalidItems(errors.value, d, message)
  {
    if errors.Some? && |errors.value| != 0 then Raised(InvalidItems(errors.value, d, message)) else Returned(())
  }

  /** A check call followed by `AssertValid` on what it returned. */
  function Checked<V>(check: Completion<Errors, V>, d: OperationData<V>, message: string): Completion<(), V>
  {
    match check
    case Raised(e) => Raised(e)
    case Returned(errors) => AssertValid(errors, d, message)
  }

  /** The `catch` of every `Operate`: an `InvalidItemsException` is rethrown
      as it is, anything else is wrapped with the operation data. */
  function Escaped<V>(e: Exception<V>, d: OperationData<V>): Exception<V>
  {
    if e.InvalidItems? then e else OperationError(d, UnexpectedError, e)
  }

  // -----------------------------------------------------------------------
  // Operation

  /** The members an `Operation<TReq, TRes>` supplies: the two checks
      (`CheckResponse` also sees the original request) and `OperateInternal`. */
  datatype Operation<!V> = Operation(
    checkRequest: V -> Completion<Errors, V>,
    checkResponse: (V, V) -> Completion<Errors, V>,
    operateInternal: V -> Completion<V, V>)

  function PreOpped<V>(op: Operation<V>, request: V, d: OperationData<V>, rec: Record<V>): Step<(), V>
  {
    Step(Checked(op.checkRequest(request), d, RequestInvalid),
         rec.(stage := CheckingRequest, request := Some(request), stages := rec.stages + [CheckingRequest]))
  }

  function PostOpped<V>(op: Operation<V>, request: V, response: V, d: OperationData<V>, rec: Record<V>): Step<(), V>
  {
    Step(Checked(op.checkResponse(response, request), d, ResponseInvalid),
         rec.(stage := CheckingResponse, response := Some(response), stages := rec.stages + [CheckingResponse]))
  }

  /** `Operation.PreOp`: record the stage and the request, then check it. */
  method PreOp<V>(op: Operation<V>, request: V, d: OperationData<V>) returns (r: Completion<(), V>)
    modifies d
    ensures Step(r, d.Snapshot()) == PreOpped(op, request, d, old(d.Snapshot()))
  {
    d.SetStage(CheckingRequest);
    d.request := Some(request);
    var requestErrors := op.checkRequest(request);
    if requestErrors.Raised? {
      return Raised(requestErrors.ex);
    }
    r := AssertValid(requestErrors.value, d, RequestInvalid);
  }

  /** `Operation.PostOp`: record the stage and the response, then check it. */
  method PostOp<V>(op: Operation<V>, request: V, response: V, d: OperationData<V>) returns (r: Completion<(), V>)
    modifies d
    ensures Step(r, d.Snapshot()) == PostOpped(op, request, response, d, old(d.Snapshot()))
  {
    d.SetStage(CheckingResponse);
    d.response := Some(response);
    var responseErrors := op.checkResponse(response, request);
    if responseErrors.Raised? {
      return Raised(responseErrors.ex);
    }
    r := AssertValid(responseErrors.value, d, ResponseInvalid);
  }

  /** `SyncOperation.Operate` on operation data `d`: what escapes and the
      record left behind. */
  function Operated<V>(op: Operation<V>, request: V, d: OperationData<V>): Step<V, V>
  {
    var pre := PreOpped(op, request, d, Fresh());
    if pre.result.Raised? then Step(Raised(Escaped(pre.result.ex, d)), pre.record)
    else match op.operateInternal(request)
      case Raised(e) => Step(Raised(Escaped(e, d)), pre.record)
      case Returned(response) =>
        var post := PostOpped(op, request, response, d, pre.record);
        if post.result.Raised? then Step(Raised(Escaped(post.result.ex, d)), post.record)
        else Step(Returned(response), post.record)
  }

  /** `SyncOperation.Operate`: fresh operation data, `PreOp`,
      `OperateInternal`, `PostOp`, and the `catch`. */
  method Operate<V>(op: Operation<V>, request: V) returns (result: Completion<V, V>, d: OperationData<V>)
    ensures fresh(d)
    ensures Step(result, d.Snapshot()) == Operated(op, request, d)
  {
    d := new OperationData();
    var pre := PreOp(op, request, d);
    if pre.Raised? {
      return Raised(Escaped(pre.ex, d)), d;
    }
    var response := op.operateInternal(request);
    if response.Raised? {
      return Raised(Escaped(response.ex, d)), d;
    }
    var post := PostOp(op, request, response.value, d);
    if post.Raised? {
      return Raised(Escaped(post.ex, d)), d;
    }
    result := Returned(response.value);
  }

  // -----------------------------------------------------------------------
  // MappedOperation

  /** The members a `MappedOperation<TReq, TInnerReq, TInnerRes, TRes>`
      supplies. The inner checks and the maps also see the requests before
      them, as their C# signatures do. */
  datatype MappedOperation<!V> = MappedOperation(
    checkRequest: V -> Completion<Errors, V>,
    mapIn: V -> Completion<V, V>,
    checkInnerRequest: (V, V) -> Completion<Errors, V>,
    operateInner: (V, V) -> Completion<V, V>,
    checkInnerResponse: (V, V, V) -> Completion<Errors, V>,
    mapOut: (V, V, V) -> Completion<V, V>,
    checkResponse: (V, V) -> Completion<Errors, V>)

  /** The default `CheckInnerRequest`/`CheckInnerResponse`: `null`. */
  function NoErrors<V>(): Completion<Errors, V>
  {
    Returned(None)
  }

  /** `MappedOperation.PreOp`: check the request, map it, check the inner
      request; the result is the inner request. */
  function MappedPreOpped<V>(op: MappedOperation<V>, request: V, d: OperationData<V>, rec: Record<V>): Step<V, V>
  {
    var checking := rec.(stage := CheckingRequest, request := Some(request), stages := rec.stages + [CheckingRequest]);
    var checked := Checked(op.checkRequest(request), d, InitialRequestInvalid);
    if checked.Raised? then Step(Raised(checked.ex), checking)
    else
      var mapping := checking.(stage := MappingRequest, stages := checking.stages + [MappingRequest]);
      match op.mapIn(request)
      case Raised(e) => Step(Raised(e), mapping)
      case Returned(innerReq) =>
        var checkingInner := mapping.(stage := CheckingInnerRequest, innerRequest := Some(innerReq),
                                      stages := mapping.stages + [CheckingInnerRequest]);
        var innerChecked := Checked(op.checkInnerRequest(innerReq, request), d, InnerRequestInvalid);
        if innerChecked.Raised? then Step(Raised(innerChecked.ex), checkingInner)
        else Step(Returned(innerReq), checkingInner)
  }

  /** `MappedOperation.PostOp`: check the inner response, map it out, check
      the final response; the result is the final response. */
  function MappedPostOpped<V>(op: MappedOperation<V>, request: V, innerReq: V, innerRes: V, d: OperationData<V>,
                              rec: Record<V>): Step<V, V>
  {
    var checkingInner := rec.(stage := CheckingInnerResponse, innerResponse := Some(innerRes),
                              stages := rec.stages + [CheckingInnerResponse]);
    var innerChecked := Checked(op.checkInnerResponse(innerRes, innerReq, request), d, InnerResponseInvalid);
    if innerChecked.Raised? then Step(Raised(innerChecked.ex), checkingInner)
    else
      var mapping := checkingInner.(stage := MappingResponse, stages := checkingInner.stages + [MappingResponse]);
      match op.mapOut(innerRes, innerReq, request)
      case Raised(e) => Step(Raised(e), mapping)
      case Returned(response) =>
        var checking := mapping.(stage := CheckingResponse, response := Some(response),
                                 stages := mapping.stages + [CheckingResponse]);
        var checked := Checked(op.checkResponse(response, request), d, FinalResponseInvalid);
        if checked.Raised? then Step(Raised(checked.ex), checking)
        else Step(Returned(response), checking)
  }

  method MappedPreOp<V>(op: MappedOperation<V>, request: V, d: OperationData<V>) returns (r: Completion<V, V>)
    modifies d
    ensures Step(r, d.Snapshot()) == MappedPreOpped(op, request, d, old(d.Snapshot()))
  {
    d.SetStage(CheckingRequest);
    d.request := Some(request);
    var requestErrors := op.checkRequest(request);
    if requestErrors.Raised? {
      return Raised(requestErrors.ex);
    }
    var valid := AssertValid(requestErrors.value, d, InitialRequestInvalid);
    if valid.Raised? {
      return Raised(valid.ex);
    }

    d.SetStage(MappingRequest);
    var innerReq := op.mapIn(request);
    if innerReq.Raised? {
      return Raised(innerReq.ex);
    }

    d.SetStage(CheckingInnerRequest);
    d.innerRequest := Some(innerReq.value);
    var innerReqErrors := op.checkInnerRequest(innerReq.value, request);
    if innerReqErrors.Raised? {
      return Raised(innerReqErrors.ex);
    }
    valid := AssertValid(innerReqErrors.value, d, InnerRequestInvalid);
    if valid.Raised? {
      return Raised(valid.ex);
    }

    return Returned(innerReq.value);
  }

  method MappedPostOp<V>(op: MappedOperation<V>, request: V, innerReq: V, innerRes: V, d: OperationData<V>)
    returns (r: Completion<V, V>)
    modifies d
    ensures Step(r, d.Snapshot()) == MappedPostOpped(op, request, innerReq, innerRes, d, old(d.Snapshot()))
  {
    d.SetStage(CheckingInnerResponse);
    d.innerResponse := Some(innerRes);
    var innerResErrors := op.checkInnerResponse(innerRes, innerReq, request);
    if innerResErrors.Raised? {
      return Raised(innerResErrors.ex);
    }
    var valid := AssertValid(innerResErrors.value, d, InnerResponseInvalid);
    if valid.Raised? {
      return Raised(valid.ex);
    }

    d.SetStage(MappingResponse);
    var response := op.mapOut(innerRes, innerReq, request);
    if response.Raised? {
      return Raised(response.ex);
    }

    d.SetStage(CheckingResponse);
    d.response := Some(response.value);
    var responseErrors := op.checkResponse(response.value, request);
    if responseErrors.Raised? {
      return Raised(responseErrors.ex);
    }
    valid := AssertValid(responseErrors.value, d, FinalResponseInvalid);
    if valid.Raised? {
      return Raised(valid.ex);
    }

    return Returned(response.value);
  }

  /** `MappedSyncOperation.Operate` on operation data `d`. */
  function MappedOperated<V>(op: MappedOperation<V>, request: V, d: OperationData<V>): Step<V, V>
  {
    var pre := MappedPreOpped(op, request, d, Fresh());
    if pre.result.Raised? then Step(Raised(Escaped(pre.result.ex, d)), pre.record)
    else match op.operateInner(request, pre.result.value)
      case Raised(e) => Step(Raised(Escaped(e, d)), pre.record)
      case Returned(innerRes) =>
        var post := MappedPostOpped(op, request, pre.result.value, innerRes, d, pre.record);
        if post.result.Raised? then Step(Raised(Escaped(post.result.ex, d)), post.record)
        else post
  }

  /** `MappedSyncOperation.Operate`: fresh operation data, `PreOp`,
      `OperateInner`, `PostOp`, and the `catch`. */
  method OperateMapped<V>(op: MappedOperation<V>, request: V) returns (result: Completion<V, V>, d: OperationData<V>)
    ensures fresh(d)
    ensures Step(result, d.Snapshot()) == MappedOperated(op, request, d)
  {
    d := new OperationData();
    var innerReq := MappedPreOp(op, request, d);
    if innerReq.Raised? {
      return Raised(Escaped(innerReq.ex, d)), d;
    }
    var innerRes := op.operateInner(request, innerReq.value);
    if innerRes.Raised? {
      return Raised(Escaped(innerRes.ex, d)), d;
    }
    var response := MappedPostOp(op, request, innerReq.value, innerRes.value, d);
    if response.Raised? {
      return Raised(Escaped(response.ex, d)), d;
    }
    result := response;
  }

  // -----------------------------------------------------------------------
  // Properties

  /** With the default check, `PreOp` records the stage and the request,
      leaves the other fields alone, and throws "Request is invalid" with the
      request's validation errors exactly when there are any. */
  lemma DefaultPreOp<V>(validate: V -> seq<InvalidItem>, op: Operation<V>, request: V, d: OperationData<V>,
                        rec: Record<V>)
    requires op.checkRequest(request) == DefaultCheck(validate, request)
    ensures var s := PreOpped(op, request, d, rec);
            && s.record.stage == CheckingRequest && s.record.request == Some(request)
            && s.record.innerRequest == rec.innerRequest && s.record.innerResponse == rec.innerResponse
            && s.record.response == rec.response
            && (s.result.Raised? <==> validate(request) != [])
            && (s.result.Raised? ==> s.result.ex == InvalidItems(validate(request), d, RequestInvalid))
  {
  }

  /** With the default check, `PostOp` records the stage and the response,
      leaves the request and the inner values alone, and throws "Response is
      invalid" with the response's validation errors exactly when there are
      any. */
  lemma DefaultPostOp<V>(validate: V -> seq<InvalidItem>, op: Operation<V>, request: V, response: V,
                         d: OperationData<V>, rec: Record<V>)
    requires op.checkResponse(response, request) == DefaultCheck(validate, response)
    ensures var s := PostOpped(op, request, response, d, rec);
            && s.record.stage == CheckingResponse && s.record.response == Some(response)
            && s.record.request == rec.request
            && s.record.innerRequest == rec.innerRequest && s.record.innerResponse == rec.innerResponse
            && (s.result.Raised? <==> validate(response) != [])
            && (s.result.Raised? ==> s.result.ex == InvalidItems(validate(response), d, ResponseInvalid))
  {
  }

  /** `Operate` returns normally exactly when both checks pass and
      `OperateInternal` returns; it then returns `OperateInternal`'s response,
      and the operation data holds the request and the response at stage
      `CheckingResponse`. */
  lemma OperateSucceeds<V>(op: Operation<V>, request: V, d: OperationData<V>)
    ensures var s := Operated(op, request, d);
            var inner := op.operateInternal(request);
            && (s.result.Returned? <==>
                  Checked(op.checkRequest(request), d, RequestInvalid).Returned? && inner.Returned?
                  && Checked(op.checkResponse(inner.value, request), d, ResponseInvalid).Returned?)
            && (s.result.Returned? ==>
                  s.result.value == inner.value
                  && s.record == Record(CheckingResponse, Some(request), None, None, Some(inner.value),
                                        [CheckingRequest, CheckingResponse]))
  {
  }

  /** `OperateInternal` is not called when the request check throws: the run
      is the same whatever it would do. */
  lemma InvalidRequestSkipsInternal<V>(op: Operation<V>, request: V, d: OperationData<V>,
                                       other: V -> Completion<V, V>)
    requires Checked(op.checkRequest(request), d, RequestInvalid).Raised?
    ensures Operated(op, request, d) == Operated(op.(operateInternal := other), request, d)
    ensures Operated(op, request, d).record.stages == [CheckingRequest]
  {
  }

  /** What escapes `Operate` is an `InvalidItemsException`, or an
      `OperationException("Unexpected error")` carrying the operation data
      and, as inner exception, the one that was thrown, which is not an
      `InvalidItemsException`. */
  lemma OperateEscapes<V>(op: Operation<V>, request: V, d: OperationData<V>)
    ensures var s := Operated(op, request, d);
            s.result.Raised? ==>
              s.result.ex.InvalidItems?
              || (s.result.ex.OperationError? && s.result.ex.data == d && s.result.ex.message == UnexpectedError
                  && !s.result.ex.inner.InvalidItems?)
  {
  }

  /** A failing `OperateInternal` is wrapped and reported at stage
      `CheckingRequest`, the last stage assigned before it. */
  lemma InternalFailureStage<V>(op: Operation<V>, request: V, d: OperationData<V>)
    requires Checked(op.checkRequest(request), d, RequestInvalid).Returned?
    requires op.operateInternal(request).Raised? && !op.operateInternal(request).ex.InvalidItems?
    ensures var s := Operated(op, request, d);
            s.result == Raised(OperationError(d, UnexpectedError, op.operateInternal(request).ex))
            && s.record.stage == CheckingRequest
  {
  }

  /** The stages a successful mapped operation assigns, in order. */
  const MappedStages: seq<OperationStage> :=
    [CheckingRequest, MappingRequest, CheckingInnerRequest, CheckingInnerResponse, MappingResponse, CheckingResponse]

  /** A mapped operation that returns normally has assigned the six stages in
      order, recorded all four values, and returns `MapOut`'s result. */
  lemma MappedSucceeds<V>(op: MappedOperation<V>, request: V, d: OperationData<V>)
    ensures var s := MappedOperated(op, request, d);
            s.result.Returned? ==>
              && s.record.stages == MappedStages && s.record.stage == CheckingResponse
              && s.record.request == Some(request)
              && s.record.innerRequest.Some? && s.record.innerResponse.Some?
              && op.mapIn(request) == Returned(s.record.innerRequest.value)
              && op.operateInner(request, s.record.innerRequest.value) == Returned(s.record.innerResponse.value)
              && op.mapOut(s.record.innerResponse.value, s.record.innerRequest.value, request) == s.result
              && s.record.response == Some(s.result.value)
  {
  }

  /** `Operating` is never assigned, by either kind of operation, and the
      stages assigned are always a prefix of the six. */
  lemma NeverOperating<V>(op: Operation<V>, mapped: MappedOperation<V>, request: V, d: OperationData<V>)
    ensures Operating !in Operated(op, request, d).record.stages
    ensures var stages := MappedOperated(mapped, request, d).record.stages;
            |stages| <= |MappedStages| && stages == MappedStages[..|stages|]
  {
  }

  /** `MapIn` and everything after it are not called when the initial
      request check throws. */
  lemma InvalidRequestSkipsMapIn<V>(op: MappedOperation<V>, request: V, d: OperationData<V>,
                                    mapIn: V -> Completion<V, V>, operateInner: (V, V) -> Completion<V, V>)
    requires Checked(op.checkRequest(request), d, InitialRequestInvalid).Raised?
    ensures MappedOperated(op, request, d)
            == MappedOperated(op.(mapIn := mapIn, operateInner := operateInner), request, d)
    ensures MappedOperated(op, request, d).record.stages == [CheckingRequest]
  {
  }

  /** `Response` is recorded only once `MapOut` has returned it, from the
      recorded inner request and inner response. */
  lemma ResponseAfterMapOut<V>(op: MappedOperation<V>, request: V, d: OperationData<V>)
    ensures var r := MappedOperated(op, request, d).record;
            r.response.Some? ==>
              r.innerRequest.Some? && r.innerResponse.Some?
              && op.mapOut(r.innerResponse.value, r.innerRequest.value, request) == Returned(r.response.value)
  {
  }

  /** With the default inner checks, which return `null`, a mapped
      operation returns normally exactly when the initial request check
      passes, `MapIn`, `OperateInner` and `MapOut` return, and the final
      response check passes. */
  lemma DefaultInnerChecksPass<V>(op: MappedOperation<V>, request: V, d: OperationData<V>)
    requires forall x: V, y: V :: op.checkInnerRequest(x, y) == NoErrors<V>()
    requires forall x: V, y: V, z: V :: op.checkInnerResponse(x, y, z) == NoErrors<V>()
    ensures MappedOperated(op, request, d).result.Returned? <==>
              && Checked(op.checkRequest(request), d, InitialRequestInvalid).Returned?
              && op.mapIn(request).Returned?
              && op.operateInner(request, op.mapIn(request).value).Returned?
              && var innerRes := op.operateInner(request, op.mapIn(request).value).value;
                 var response := op.mapOut(innerRes, op.mapIn(request).value, request);
                 response.Returned? && Checked(op.checkResponse(response.value, request), d, FinalResponseInvalid).Returned?
  {
    if op.mapIn(request).Returned? {
      var innerReq := op.mapIn(request).value;
      Instance2(op.checkInnerRequest, innerReq, request);
      if op.operateInner(request, innerReq).Returned? {
        Instance3(op.checkInnerResponse, op.operateInner(request, innerReq).value, innerReq, request);
      }
    }
  }

  lemma Instance2<V>(f: (V, V) -> Completion<Errors, V>, x: V, y: V)
    requires forall a: V, b: V :: f(a, b) == NoErrors<V>()
    ensures f(x, y) == NoErrors()
  {
  }

  lemma Instance3<V>(f: (V, V, V) -> Completion<Errors, V>, x: V, y: V, z: V)
    requires forall a: V, b: V, c: V :: f(a, b, c) == NoErrors<V>()
    ensures f(x, y, z) == NoErrors()
  {
  }

  /** A failing `OperateInner` is wrapped and reported at stage
      `CheckingInnerRequest`, since `Operating` is never assigned. */
  lemma InnerFailureStage<V>(op: MappedOperation<V>, request: V, d: OperationData<V>)
    requires MappedPreOpped(op, request, d, Fresh()).result.Returned?
    requires var innerReq := MappedPreOpped(op, request, d, Fresh()).result.value;
             op.operateInner(request, innerReq).Raised? && !op.operateInner(request, innerReq).ex.InvalidItems?
    ensures var innerReq := MappedPreOpped(op, request, d, Fresh()).result.value;
            var s := MappedOperated(op, request, d);
            s.result == Raised(OperationError(d, UnexpectedError, op.operateInner(request, innerReq).ex))
            && s.record.stage == CheckingInnerRequest
  {
  }
}
