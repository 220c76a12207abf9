/** The MassTransit reply helpers of masstransit_consumer.py. */
module MassTransit {
  import opened Wrappers

  // ---------------------------------------------------------------------------
  // get_exchange_name (masstransit_consumer.py:32-35)
  // ---------------------------------------------------------------------------

  /** The characters `\w` matches, over ASCII. */
  predicate IsWordChar(c: char) {
    'a' <= c <= 'z' || 'A' <= c <= 'Z' || '0' <= c <= '9' || c == '_'
  }

  /** Every character of `w` is a word character. */
  predicate IsWord(w: string) {
    forall k :: 0 <= k < |w| ==> IsWordChar(w[k])
  }

  /** The end of the longest run of word characters starting at `i`. */
  function WordRunEnd(s: string, i: nat): (j: nat)
    requires i <= |s|
    ensures i <= j <= |s|
    ensures forall k :: i <= k < j ==> IsWordChar(s[k])
    ensures j == |s| || !IsWordChar(s[j])
    decreases |s| - i
  {
    if i == |s| || !IsWordChar(s[i]) then i else WordRunEnd(s, i + 1)
  }

  /**
   * The pattern `/(\w+)\?` matches at `p`: a slash, then a non-empty run of word
   * characters, then a question mark. Backtracking cannot help: a shorter run would be
   * followed by a word character, not by `?`, so only the longest run counts.
   */
  predicate MatchAt(s: string, p: nat)
    requires p < |s|
  {
    s[p] == '/' && WordRunEnd(s, p + 1) > p + 1 && WordRunEnd(s, p + 1) < |s| && s[WordRunEnd(s, p + 1)] == '?'
  }

  /** No match starts before `p`. */
  predicate NoMatchBefore(s: string, p: nat)
    requires p <= |s|
  {
    forall q :: 0 <= q < p ==> !MatchAt(s, q)
  }

  /** `t` occurs in `s` at position `p`. */
  predicate OccursAt(t: string, s: string, p: nat) {
    p + |t| <= |s| && s[p..p + |t|] == t
  }

  /** `re.search`: the leftmost match at or after `p`. */
  function SearchFrom(s: string, p: nat): (r: Option<nat>)
    requires p <= |s|
    ensures r.Some? ==> p <= r.value < |s| && MatchAt(s, r.value)
    ensures r.Some? ==> forall q :: p <= q < r.value ==> !MatchAt(s, q)
    ensures r.None? ==> forall q :: p <= q < |s| ==> !MatchAt(s, q)
    decreases |s| - p
  {
    if p == |s| then None
    else if MatchAt(s, p) then Some(p)
    else SearchFrom(s, p + 1)
  }

  /**
   * get_exchange_name: the group of the leftmost match of `/(\w+)\?`. Without a match
   * the search returns None and `.group` raises an attribute error.
   */
  function GetExchangeName(address: string): (r: Result<string>)
    ensures r.Failure? <==> NoMatchBefore(address, |address|)
    ensures r.Failure? ==> r.error == AttributeError
    ensures r.Success? ==> |r.value| > 0 && IsWord(r.value)
    ensures r.Success? ==> exists p :: 0 <= p < |address| && OccursAt("/" + r.value + "?", address, p) && NoMatchBefore(address, p)
  {
    match SearchFrom(address, 0)
    case None => Failure(AttributeError)
    case Some(p) =>
      var e := WordRunEnd(address, p + 1);
      var name := address[p + 1..e];
      assert address[p..e + 1] == "/" + name + "?";
      assert OccursAt("/" + name + "?", address, p) && NoMatchBefore(address, p);
      Success(name)
  }

  /** Every occurrence of `/w?` with a non-empty word `w` is a match whose group is `w`. */
  lemma OccurrenceIsMatch(s: string, w: string, p: nat)
    requires |w| > 0 && IsWord(w) && OccursAt("/" + w + "?", s, p)
    ensures MatchAt(s, p) && WordRunEnd(s, p + 1) == p + 1 + |w|
  {
    var t := "/" + w + "?";
    forall k | p + 1 <= k < p + 1 + |w| ensures IsWordChar(s[k]) {
      assert s[k] == t[k - p] == w[k - p - 1];
    }
    assert s[p + 1 + |w|] == t[|w| + 1] == '?';
    assert s[p] == t[0] == '/';
    WordRunEndOfRun(s, p + 1, p + 1 + |w|);
  }

  /** A run of word characters up to a non-word character ends there. */
  lemma {:induction false} WordRunEndOfRun(s: string, i: nat, j: nat)
    requires i <= j < |s| && !IsWordChar(s[j])
    requires forall k :: i <= k < j ==> IsWordChar(s[k])
    ensures WordRunEnd(s, i) == j
    decreases j - i
  {
    if i < j {
      WordRunEndOfRun(s, i + 1, j);
    }
  }

  /**
   * Building an address around an exchange name and extracting it gives the name
   * back, when no slash comes before it.
   */
  lemma ExchangeNameOfAddress(prefix: string, w: string, rest: string)
    requires '/' !in prefix && |w| > 0 && IsWord(w)
    ensures GetExchangeName(prefix + "/" + w + "?" + rest) == Success(w)
  {
    AddressLayout(prefix, w, rest, prefix + "/" + w + "?" + rest);
    ExchangeNameAt(prefix + "/" + w + "?" + rest, w, |prefix|);
  }

  /** The exchange name of an address whose first slash starts `/w?`. */
  lemma ExchangeNameAt(s: string, w: string, p: nat)
    requires |w| > 0 && IsWord(w) && p + |w| + 2 <= |s|
    requires s[p] == '/' && s[p + 1 + |w|] == '?'
    requires forall k :: 0 <= k < |w| ==> s[p + 1 + k] == w[k]
    requires forall q :: 0 <= q < p ==> s[q] != '/'
    ensures GetExchangeName(s) == Success(w)
  {
    forall k | p + 1 <= k < p + 1 + |w| ensures IsWordChar(s[k]) {
      assert s[p + 1 + (k - p - 1)] == w[k - p - 1];
    }
    WordRunEndOfRun(s, p + 1, p + 1 + |w|);
    assert MatchAt(s, p);
    SearchSkips(s, 0, p);
    assert s[p + 1..p + 1 + |w|] == w;
  }

  /** Where the parts of an address built around an exchange name sit. */
  lemma AddressLayout(prefix: string, w: string, rest: string, s: string)
    requires '/' !in prefix && s == prefix + "/" + w + "?" + rest
    ensures |s| == |prefix| + |w| + 2 + |rest|
    ensures s[|prefix|] == '/' && s[|prefix| + 1 + |w|] == '?'
    ensures forall k :: 0 <= k < |w| ==> s[|prefix| + 1 + k] == w[k]
    ensures forall q :: 0 <= q < |prefix| ==> s[q] != '/'
  {
    forall q | 0 <= q < |prefix| ensures s[q] != '/' {
      assert s[q] == prefix[q];
    }
  }

  /** The search passes over positions without a match. */
  lemma {:induction false} SearchSkips(s: string, from: nat, p: nat)
    requires from <= p < |s| && MatchAt(s, p)
    requires forall q :: from <= q < p ==> !MatchAt(s, q)
    ensures SearchFrom(s, from) == Some(p)
    decreases p - from
  {
    if from < p {
      SearchSkips(s, from + 1, p);
    }
  }

  // ---------------------------------------------------------------------------
  // create_mass_transit_response (masstransit_consumer.py:11-29)
  // ---------------------------------------------------------------------------

  /** The reply envelope, before `json.dumps`. */
  datatype Response<T> = Response(
    requestId: string,
    correlationId: string,
    conversationId: string,
    initiatorId: string,
    sourceAddress: string,
    destinationAddress: string,
    messageType: seq<string>,
    message: T)

  /** The request fields the dict literal reads, in the order it reads them. */
  const RequestFields: seq<string> := ["requestId", "correlationId", "conversationId", "destinationAddress", "sourceAddress"]

  /** The request holds every field the dict literal reads. */
  predicate HasRequestFields(request: map<string, string>) {
    && "requestId" in request && "correlationId" in request && "conversationId" in request
    && "destinationAddress" in request && "sourceAddress" in request
  }

  /** The first field of `fields` that `request` lacks, if any. */
  function FirstMissing(request: map<string, string>, fields: seq<string>): (r: Option<string>)
    ensures r.None? <==> forall k :: 0 <= k < |fields| ==> fields[k] in request
    ensures r.Some? ==> r.value in fields && r.value !in request
    ensures r.Some? ==> exists k :: 0 <= k < |fields| && fields[k] == r.value && forall l :: 0 <= l < k ==> fields[l] in request
  {
    if |fields| == 0 then None
    else if fields[0] !in request then Some(fields[0])
    else
      FirstMissing(request, fields[1..])
  }

  /**
   * create_mass_transit_response: the ids are copied, the initiator is the request's
   * correlation id, the two addresses are swapped, and the message type names the
   * namespace. A missing request field is a key error for the first one read.
   */
  function CreateMassTransitResponse<T>(result: T, request: map<string, string>, namespace: string): (r: Result<Response<T>>)
    ensures r.Success? <==> HasRequestFields(request)
    ensures r.Failure? ==>
              && FirstMissing(request, RequestFields).Some?
              && r.error == MissingField(FirstMissing(request, RequestFields).value)
    ensures r.Success? ==>
              && HasRequestFields(request)
              && r.value.requestId == request["requestId"]
              && r.value.correlationId == request["correlationId"]
              && r.value.conversationId == request["conversationId"]
              && r.value.initiatorId == request["correlationId"]
              && r.value.sourceAddress == request["destinationAddress"]
              && r.value.destinationAddress == request["sourceAddress"]
              && r.value.messageType == ["urn:message:" + namespace]
              && r.value.message == result
  {
    assert HasRequestFields(request) <==> forall k :: 0 <= k < |RequestFields| ==> RequestFields[k] in request by {
      assert RequestFields[0] == "requestId" && RequestFields[1] == "correlationId";
      assert RequestFields[2] == "conversationId" && RequestFields[3] == "destinationAddress";
      assert RequestFields[4] == "sourceAddress";
    }
    match FirstMissing(request, RequestFields)
    case Some(f) => Failure(MissingField(f))
    case None =>
      Success(Response(
        requestId := request["requestId"],
        correlationId := request["correlationId"],
        conversationId := request["conversationId"],
        initiatorId := request["correlationId"],
        sourceAddress := request["destinationAddress"],
        destinationAddress := request["sourceAddress"],
        messageType := ["urn:message:" + namespace],
        message := result))
  }

  /** The fields of a response, read back as a request. */
  function AsRequest<T>(resp: Response<T>): map<string, string> {
    map["requestId" := resp.requestId, "correlationId" := resp.correlationId,
        "conversationId" := resp.conversationId, "destinationAddress" := resp.destinationAddress,
        "sourceAddress" := resp.sourceAddress]
  }

  /** Answering a reply sends it back: the addresses return to where they were and the ids carry through. */
  lemma ReplyToReply<T, U>(result: T, answer: U, request: map<string, string>, namespace: string, namespace': string)
    requires CreateMassTransitResponse(result, request, namespace).Success?
    ensures var back := CreateMassTransitResponse(answer, AsRequest(CreateMassTransitResponse(result, request, namespace).value), namespace');
            && back.Success? && HasRequestFields(request)
            && back.value.sourceAddress == request["sourceAddress"]
            && back.value.destinationAddress == request["destinationAddress"]
            && back.value.requestId == request["requestId"]
            && back.value.correlationId == request["correlationId"]
            && back.value.initiatorId == request["correlationId"]
  {
    var req2 := AsRequest(CreateMassTransitResponse(result, request, namespace).value);
    assert forall k :: 0 <= k < |RequestFields| ==> RequestFields[k] in req2;
  }
}
