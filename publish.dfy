/**
 * `codearts-pack publish`: upload each package, poll the marketplace until
 * the package's checks pass, then ask for it to be published, turning every
 * failure into one error message.
 *
 * The HTTP calls are inputs: `server(i)` is the reply to the `i`-th status
 * request, and the upload and archiving calls are given as their replies.
 */
module Publish {
  import opened Js

  const Success: string := "success"
  const Fail: string := "failed"
  const MaxCount: nat := 20
  const InvalidTokenCode: string := "IDE.07000043"

  /** `StatusFailure`; the message is absent when the server sent none. */
  datatype Failure = Failure(code: string, message: Option<string>)

  /** `Status`, the value `checkExtensionStatus` resolves or rejects with. */
  datatype Status = Status(status: string, errors: seq<Failure>)

  /** One member of the response's `result` object, in the order the server sent them. */
  datatype Section = Section(name: string, status: string, errors: seq<Failure>)

  /** `StatusResponse`. */
  datatype StatusResponse = StatusResponse(
    result: Option<seq<Section>>, status: Option<string>, errorCode: Option<string>, errorMsg: Option<string>)

  /** The body of a failed HTTP call: `null`/`undefined`, a text body, or a JSON object. */
  datatype ErrorData = NoData | TextBody(text: string) | ObjectBody(errorCode: Option<string>, errorMsg: Option<string>)

  /** The reply to one status request; a request error may carry the server's response. */
  datatype Reply = Response(data: StatusResponse) | RequestError(response: Option<ErrorData>)

  /** Why `checkExtensionStatus` rejected. */
  datatype Reason = Failed(status: Status) | TypeError | RequestFailed(response: Option<ErrorData>)

  /** How `checkExtensionStatus` settled, and after how many status requests. */
  datatype Outcome = Resolved(requests: nat) | Rejected(requests: nat, reason: Reason)

  /**
   * `data.result[name]`: the last section called `name`, since `JSON.parse`
   * keeps the last of duplicate keys.
   */
  function Lookup(sections: seq<Section>, name: string): (r: Option<Section>)
    ensures r.Some? ==> r.value.name == name
    ensures r.Some? ==>
      exists i :: 0 <= i < |sections| && sections[i] == r.value && forall j :: i < j < |sections| ==> sections[j].name != name
    ensures r.None? ==> forall s :: s in sections ==> s.name != name
  {
    if sections == [] then None
    else
      var last := sections[|sections| - 1];
      if last.name == name then Some(last)
      else
        var r := Lookup(sections[..|sections| - 1], name);
        assert forall s :: s in sections ==> s in sections[..|sections| - 1] || s == last;
        r
  }

  /**
   * `checkResponseStatus`; `None` is the `TypeError` of reading `.status`
   * of a missing section, which the `&&` chain reaches only while the
   * sections before it passed.
   */
  function CheckResponseStatus(data: StatusResponse): Option<bool>
  {
    if !Present(data.status) || data.result.None? || data.status.value != Success then Some(false)
    else
      var basic := Lookup(data.result.value, "basicInformation");
      if basic.None? then None
      else if basic.value.status != Success then Some(false)
      else
        var file := Lookup(data.result.value, "file");
        if file.None? then None
        else if file.value.status != Success then Some(false)
        else
          var security := Lookup(data.result.value, "security");
          if security.None? then None
          else Some(security.value.status == Success)
  }

  /** The member names of an object, in insertion order. */
  function Names(obj: seq<Section>): (r: seq<string>)
    ensures |r| == |obj| && forall k :: 0 <= k < |obj| ==> r[k] == obj[k].name
  {
    seq(|obj|, k requires 0 <= k < |obj| => obj[k].name)
  }

  /** No two members share a name. */
  predicate DistinctNames(obj: seq<Section>)
  {
    forall i, j :: 0 <= i < j < |obj| ==> obj[i].name != obj[j].name
  }

  /**
   * `obj[s.name] = s` on an object kept as its members in insertion order:
   * a name already present keeps its place and takes the new value, and a
   * new name goes last.
   */
  function Assign(obj: seq<Section>, s: Section): (r: seq<Section>)
    requires DistinctNames(obj)
    ensures DistinctNames(r)
    ensures s.name in Names(obj) ==>
      |r| == |obj| && forall k :: 0 <= k < |obj| ==> r[k] == if obj[k].name == s.name then s else obj[k]
    ensures s.name !in Names(obj) ==> r == obj + [s]
  {
    var i := FirstIndex(Names(obj), s.name);
    if i < 0 then obj + [s]
    else
      assert obj[i].name == s.name;
      obj[i := s]
  }

  /**
   * The `result` object `JSON.parse` builds from the sections in the order
   * the server sent them: a repeated name keeps the place of its first
   * occurrence and the value of its last.
   */
  function ObjectOf(sections: seq<Section>): (r: seq<Section>)
    ensures DistinctNames(r)
    ensures |r| <= |sections|
  {
    if sections == [] then [] else Assign(ObjectOf(sections[..|sections| - 1]), sections[|sections| - 1])
  }

  /** The `reduce` that concatenates the members' errors in order. */
  function ConcatErrors(values: seq<Section>): seq<Failure>
  {
    if values == [] then [] else ConcatErrors(values[..|values| - 1]) + values[|values| - 1].errors
  }

  /** The errors of `Object.values(result)`: one member per distinct name. */
  function AllErrors(sections: seq<Section>): seq<Failure>
  {
    ConcatErrors(ObjectOf(sections))
  }

  /** The rejection after the last failing poll. */
  function FinalFailure(data: StatusResponse): Reason
  {
    if Present(data.errorCode) then Failed(Status(Fail, [Failure(Fail, data.errorMsg)]))
    else if data.result.None? then TypeError
    else Failed(Status(Fail, AllErrors(data.result.value)))
  }

  /** The poll from the `count`-th request on. */
  function Poll(server: nat -> Reply, count: nat): Outcome
    requires count < MaxCount
    decreases MaxCount - count
  {
    match server(count)
    case RequestError(response) => Rejected(count + 1, RequestFailed(response))
    case Response(data) =>
      var ok := CheckResponseStatus(data);
      if ok.None? then Rejected(count + 1, TypeError)
      else if count + 1 >= MaxCount && !ok.value then Rejected(count + 1, FinalFailure(data))
      else if ok.value then Resolved(count + 1)
      else Poll(server, count + 1)
  }

  /**
   * `checkExtensionStatus`: request the status until it passes, a request
   * fails, or the 20th reply still does not pass. The 1.5 s pause between
   * requests is not modelled.
   */
  method CheckExtensionStatus(server: nat -> Reply) returns (outcome: Outcome)
    ensures outcome == Poll(server, 0)
  {
    var count := 0;
    while true
      invariant count < MaxCount
      invariant Poll(server, count) == Poll(server, 0)
      decreases MaxCount - count
    {
      var reply := server(count);
      if reply.RequestError? {
        return Rejected(count + 1, RequestFailed(reply.response));
      }
      count := count + 1;
      var ok := CheckResponseStatus(reply.data);
      if ok.None? {
        return Rejected(count, TypeError);
      }
      if count >= MaxCount && !ok.value {
        return Rejected(count, FinalFailure(reply.data));
      }
      if ok.value {
        return Resolved(count);
      }
    }
  }

  /** A line `publish` prints for one package. */
  datatype Message =
    | EmptyToken                      // the prompted token was empty
    | UploadRequestFailed             // no response, or a response without data
    | Raw(text: string)               // the body itself, when it has no error code
    | InvalidToken                    // error code IDE.07000043
    | ServerError(msg: Option<string>) // the server's error message, `undefined` when absent
    | CheckError                      // the status check failed without a status or a response
    | Published
    | PublishFailed

  /** The outer `catch` of `_publish`: the message for a failed upload or archiving request. */
  function UploadErrorMessage(response: Option<ErrorData>): Message
  {
    match response
    case None => UploadRequestFailed
    case Some(data) =>
      match data
      case NoData => UploadRequestFailed
      case TextBody(text) => if text == "" then UploadRequestFailed else Raw(text)
      case ObjectBody(code, msg) =>
        if !Present(code) then Raw("[object Object]")
        else if code.value == InvalidTokenCode then InvalidToken
        else ServerError(msg)
  }

  /**
   * The inner `catch` around the status poll. A rejection with a status
   * prints each error's message; a request error with a response prints
   * its `error_msg` — unless the data is missing, when reading it throws
   * and the outer `catch` reports the upload as failed.
   */
  function StatusErrorMessages(reason: Reason): seq<Message>
  {
    match reason
    case Failed(st) =>
      if st.status != "" then seq(|st.errors|, i requires 0 <= i < |st.errors| => ServerError(st.errors[i].message))
      else [CheckError]
    case TypeError => [CheckError]
    case RequestFailed(response) =>
      match response
      case None => [CheckError]
      case Some(data) =>
        match data
        case NoData => [UploadRequestFailed]
        case TextBody(_) => [ServerError(None)]
        case ObjectBody(_, msg) => [ServerError(msg)]
  }

  /** The reply to a call that either succeeds with a value or fails with an HTTP error. */
  datatype Call<T> = Ok(value: T) | Err(response: Option<ErrorData>)

  /**
   * `_publish` for one package: the token is `pat`, or else the prompted
   * answer; then upload, poll, and archive.
   */
  function PublishOne(pat: string, answer: Option<string>, upload: Call<string>, server: nat -> Reply,
                      archive: Call<string>): seq<Message>
  {
    if pat == "" && !Present(answer) then [EmptyToken]
    else if upload.Err? then [UploadErrorMessage(upload.response)]
    else match Poll(server, 0)
      case Rejected(_, reason) => StatusErrorMessages(reason)
      case Resolved(_) =>
        if archive.Err? then [UploadErrorMessage(archive.response)]
        else if archive.value == Success then [Published]
        else [PublishFailed]
  }

  /** What `publish` did. */
  datatype Run =
    | NotFound                                    // no path list: the missing package is reported
    | Ran(results: seq<(string, seq<Message>)>)   // one publication per given path
    | PackedNothing // an empty list: `pack` stops at the dotted package name and returns nothing
    | PackThrew     // an empty list: `pack` throws a TypeError and the returned promise rejects

  /**
   * `publish`: each given path is read and published on its own, and what
   * one prints does not stop the next. An empty list makes `pack` run first,
   * on the two rule lists read from a promise that is not awaited, so both
   * are missing: `pack` returns at once for a dotted package name, and
   * otherwise throws when it reads the length of the missing exclude list.
   */
  method PublishAll(packagePath: Option<seq<string>>, packageName: string, publishPath: string -> seq<Message>)
    returns (run: Run)
    ensures packagePath.None? <==> run == NotFound
    ensures packagePath == Some([]) ==> run == if Contains(packageName, ".") then PackedNothing else PackThrew
    ensures packagePath.Some? && packagePath.value != [] ==>
      (run.Ran? && |run.results| == |packagePath.value| &&
       forall i :: 0 <= i < |packagePath.value| ==>
         run.results[i] == (packagePath.value[i], publishPath(packagePath.value[i])))
  {
    if packagePath.None? {
      return NotFound;
    }
    var paths := packagePath.value;
    if |paths| == 0 {
      if IndexOf(packageName, ".", 0) != -1 {
        return PackedNothing;
      }
      return PackThrew;
    }
    var results: seq<(string, seq<Message>)> := [];
    var i := 0;
    while i < |paths|
      invariant 0 <= i <= |paths|
      invariant |results| == i
      invariant forall j :: 0 <= j < i ==> results[j] == (paths[j], publishPath(paths[j]))
    {
      results := results + [(paths[i], publishPath(paths[i]))];
      i := i + 1;
    }
    return Ran(results);
  }
}

/** What the status check accepts, how the poll ends, and which message each failure gives. */
module PublishProps {
  import opened Js
  import opened Publish

  /** Of two sections with one name, the later one is read, as `JSON.parse` keeps it. */
  lemma LookupTakesLast(name: string, first: Section, second: Section, others: seq<Section>)
    requires first.name == name && second.name == name
    ensures Lookup(others + [first, second], name) == Some(second)
  {
  }

  /** A section is found iff one of that name exists. */
  lemma LookupFinds(sections: seq<Section>, name: string)
    ensures Lookup(sections, name).Some? <==> exists i :: 0 <= i < |sections| && sections[i].name == name
  {
    if exists i :: 0 <= i < |sections| && sections[i].name == name {
      var i :| 0 <= i < |sections| && sections[i].name == name;
      assert sections[i] in sections;
    }
  }

  /** The three sections are present and report success. */
  predicate SectionsPass(sections: seq<Section>)
  {
    var b := Lookup(sections, "basicInformation");
    var f := Lookup(sections, "file");
    var s := Lookup(sections, "security");
    b.Some? && f.Some? && s.Some? && b.value.status == Success && f.value.status == Success && s.value.status == Success
  }

  /** `checkResponseStatus` is true iff the status is `success`, a result is present and its three sections pass. */
  lemma CheckPassesIff(data: StatusResponse)
    ensures CheckResponseStatus(data) == Some(true) <==>
      data.status == Some(Success) && data.result.Some? && SectionsPass(data.result.value)
  {
  }

  /** The check throws only on a successful response with a section missing. */
  lemma CheckThrowsOnlyOnMissingSection(data: StatusResponse)
    ensures CheckResponseStatus(data).None? ==>
      data.status == Some(Success) && data.result.Some? &&
      (Lookup(data.result.value, "basicInformation").None? || Lookup(data.result.value, "file").None? ||
       Lookup(data.result.value, "security").None?)
  {
  }

  /** A response whose own status is not `success` is refused without reading the sections. */
  lemma CheckRefusesFailedStatus(data: StatusResponse)
    requires data.status != Some(Success)
    ensures CheckResponseStatus(data) == Some(false)
  {
  }

  /** The `count`-th reply is a response that the check refuses without throwing. */
  predicate Pending(server: nat -> Reply, count: nat)
  {
    server(count).Response? && CheckResponseStatus(server(count).data) == Some(false)
  }

  predicate Passes(server: nat -> Reply, count: nat)
  {
    server(count).Response? && CheckResponseStatus(server(count).data) == Some(true)
  }

  /** The poll makes between one and 20 requests. */
  lemma {:induction false} PollBounded(server: nat -> Reply, count: nat)
    requires count < MaxCount
    ensures count < Poll(server, count).requests <= MaxCount
    decreases MaxCount - count
  {
    if server(count).Response? {
      var ok := CheckResponseStatus(server(count).data);
      if ok.Some? && ok.value == false && count + 1 < MaxCount {
        PollBounded(server, count + 1);
      }
    }
  }

  /**
   * The poll resolves after `n` requests iff the `n`-th reply passes and
   * every earlier one was refused; this includes the 20th.
   */
  lemma {:induction false} ResolvesAtFirstPass(server: nat -> Reply, count: nat, n: nat)
    requires count < MaxCount
    ensures Poll(server, count) == Resolved(n) <==>
      count < n <= MaxCount && Passes(server, n - 1) && forall j :: count <= j < n - 1 ==> Pending(server, j)
    decreases MaxCount - count
  {
    if Pending(server, count) && count + 1 < MaxCount {
      ResolvesAtFirstPass(server, count + 1, n);
    } else if !Pending(server, count) && n - 1 > count {
      assert !(forall j :: count <= j < n - 1 ==> Pending(server, j)) by {
        assert count <= count < n - 1;
      }
    }
  }

  /** Twenty refused replies end the poll with the last reply's failure. */
  lemma {:induction false} GivesUpAfterTwenty(server: nat -> Reply, count: nat)
    requires count < MaxCount
    requires forall j :: count <= j < MaxCount ==> Pending(server, j)
    ensures server(MaxCount - 1).Response? &&
      Poll(server, count) == Rejected(MaxCount, FinalFailure(server(MaxCount - 1).data))
    decreases MaxCount - count
  {
    assert Pending(server, count);
    if count + 1 < MaxCount {
      GivesUpAfterTwenty(server, count + 1);
    }
  }

  /** A request that fails ends the poll at once with that failure. */
  lemma {:induction false} RequestErrorStops(server: nat -> Reply, count: nat, k: nat)
    requires count <= k < MaxCount && server(k).RequestError?
    requires forall j :: count <= j < k ==> Pending(server, j)
    ensures Poll(server, count) == Rejected(k + 1, RequestFailed(server(k).response))
    decreases k - count
  {
    if count < k {
      assert Pending(server, count);
      RequestErrorStops(server, count + 1, k);
    }
  }

  /** With an error code the rejection holds one error carrying `error_msg`. */
  lemma FinalFailureWithCode(data: StatusResponse)
    requires Present(data.errorCode)
    ensures FinalFailure(data) == Failed(Status(Fail, [Failure(Fail, data.errorMsg)]))
  {
  }

  /**
   * A section is a member of the parsed object iff it is the one `Lookup`
   * reads for its name: the last section of that name.
   */
  lemma {:induction false} ObjectValues(sections: seq<Section>, s: Section)
    ensures s in ObjectOf(sections) <==> Lookup(sections, s.name) == Some(s)
  {
    if sections != [] {
      var init := sections[..|sections| - 1];
      var last := sections[|sections| - 1];
      var obj := ObjectOf(init);
      var r := ObjectOf(sections);
      assert r == Assign(obj, last);
      ObjectValues(init, s);
      if s.name == last.name {
        assert last in r by {
          if last.name in Names(obj) {
            var i := FirstIndex(Names(obj), last.name);
            assert r[i] == last;
          } else {
            assert r[|obj|] == last;
          }
        }
        if s in r {
          var i :| 0 <= i < |r| && r[i] == s;
          var j :| 0 <= j < |r| && r[j] == last;
          assert i == j;
        }
      } else {
        if s in obj {
          var i :| 0 <= i < |obj| && obj[i] == s;
          assert r[i] == s;
        }
        if s in r {
          var i :| 0 <= i < |r| && r[i] == s;
          assert i < |obj| && obj[i] == s;
        }
      }
    }
  }

  /** A later section never moves a name already in the object. */
  lemma ObjectKeepsPlaces(sections: seq<Section>, s: Section)
    ensures |ObjectOf(sections)| <= |ObjectOf(sections + [s])|
    ensures forall k :: 0 <= k < |ObjectOf(sections)| ==> ObjectOf(sections + [s])[k].name == ObjectOf(sections)[k].name
  {
    assert (sections + [s])[..|sections|] == sections;
  }

  /** The concatenated errors are those of the members. */
  lemma {:induction false} ConcatErrorsMembers(values: seq<Section>, f: Failure)
    ensures f in ConcatErrors(values) <==> exists s :: s in values && f in s.errors
  {
    if values != [] {
      var init := values[..|values| - 1];
      ConcatErrorsMembers(init, f);
      assert forall s :: s in values <==> s in init || s == values[|values| - 1];
    }
  }

  /**
   * Without an error code the rejection holds exactly the errors of the
   * sections that are the last of their name.
   */
  lemma AllErrorsMembers(sections: seq<Section>, f: Failure)
    ensures f in AllErrors(sections) <==>
      exists i :: 0 <= i < |sections| && f in sections[i].errors && Lookup(sections, sections[i].name) == Some(sections[i])
  {
    ConcatErrorsMembers(ObjectOf(sections), f);
    if f in AllErrors(sections) {
      var s :| s in ObjectOf(sections) && f in s.errors;
      ObjectValues(sections, s);
      var i :| 0 <= i < |sections| && sections[i] == Lookup(sections, s.name).value;
      assert f in sections[i].errors && Lookup(sections, sections[i].name) == Some(sections[i]);
    }
    if i :| 0 <= i < |sections| && f in sections[i].errors && Lookup(sections, sections[i].name) == Some(sections[i]) {
      ObjectValues(sections, sections[i]);
    }
  }

  /** A repeated section reports the errors of its last copy, at the place of its first. */
  lemma RepeatedSectionErrors(e1: Failure, e2: Failure, e3: Failure)
    ensures AllErrors([Section("a", Fail, [e1]), Section("b", Fail, [e2]), Section("a", Fail, [e3])]) == [e3, e2]
  {
    var a1, b, a3 := Section("a", Fail, [e1]), Section("b", Fail, [e2]), Section("a", Fail, [e3]);
    var sections := [a1, b, a3];
    assert sections[..2] == [a1, b] && [a1, b][..1] == [a1] && [a1][..0] == [];
    assert ObjectOf([a1]) == [a1];
    assert Names([a1]) == ["a"];
    assert ObjectOf([a1, b]) == [a1, b];
    assert Names([a1, b]) == ["a", "b"];
    assert ObjectOf(sections) == [a3, b];
    assert [a3, b][..1] == [a3] && [a3][..0] == [];
    assert ConcatErrors([a3]) == [e3];
    assert ConcatErrors([a3, b]) == [e3] + [e2];
  }

  /** The invalid-token message appears exactly for error code IDE.07000043. */
  lemma InvalidTokenIff(response: Option<ErrorData>)
    ensures UploadErrorMessage(response) == InvalidToken <==>
      response.Some? && response.value.ObjectBody? && response.value.errorCode == Some(InvalidTokenCode)
  {
  }

  /** A request without response, or with empty data, reports the upload as failed. */
  lemma NoDataFailsUpload(response: Option<ErrorData>)
    ensures UploadErrorMessage(response) == UploadRequestFailed <==>
      response.None? || response.value.NoData? || response.value == TextBody("")
  {
  }

  /** A rejection with a status prints one line per error, with each error's message. */
  lemma StatusLinesPerError(st: Status)
    requires st.status != ""
    ensures |StatusErrorMessages(Failed(st))| == |st.errors|
    ensures forall i :: 0 <= i < |st.errors| ==> StatusErrorMessages(Failed(st))[i] == ServerError(st.errors[i].message)
  {
  }

  /** A package is published only after a token, an upload, a passing poll and a successful archiving reply. */
  lemma PublishedOnlyIfAllPass(pat: string, answer: Option<string>, upload: Call<string>, server: nat -> Reply,
                               archive: Call<string>)
    ensures Published in PublishOne(pat, answer, upload, server, archive) <==>
      (pat != "" || Present(answer)) && upload.Ok? && Poll(server, 0).Resolved? && archive == Ok(Success)
  {
    var r := PublishOne(pat, answer, upload, server, archive);
    if (pat != "" || Present(answer)) && upload.Ok? && Poll(server, 0).Rejected? {
      var reason := Poll(server, 0).reason;
      if reason.Failed? && reason.status.status != "" {
        assert forall m :: m in r ==> m.ServerError?;
      }
    }
  }

  /** An empty token with no answer stops before anything is uploaded. */
  lemma EmptyTokenStops(answer: Option<string>, upload: Call<string>, server: nat -> Reply, archive: Call<string>)
    requires !Present(answer)
    ensures PublishOne("", answer, upload, server, archive) == [EmptyToken]
  {
  }
}
