// The UMB message consumer: a message's address is turned from the general topic form into the virtual-topic
// address this consumer listens on, routed to the handler of that topic, and the message is accepted when the
// handler scheduled its task or released for re-delivery when it did not. Task scheduling is a parameter that
// says whether the broker took the request; a message body is the JSON document flattened to dotted key paths.

module Consumer {
  import opened Wrappers
  import opened Text

  /** The virtual topics listened on. */
  datatype Topic =
    | BrewBuildComplete
    | BrewBuildTag
    | BrewBuildUntag
    | ErrataActivityStatus
    | SbomSpikeComplete
    | ContentManifestCreate

  /** Each topic's address after the virtual-topic prefix. */
  function TopicSuffix(t: Topic): string
  {
    match t
    case BrewBuildComplete => "brew.build.complete"
    case BrewBuildTag => "brew.build.tag"
    case BrewBuildUntag => "brew.build.untag"
    case ErrataActivityStatus => "errata.activity.status"
    case SbomSpikeComplete => "pnc.sbom.spike.complete"
    case ContentManifestCreate => "snitch.contentmanifest.create"
  }

  /** The topic a suffix names, if any: the suffixes are distinct, so at most one. */
  function TopicOf(suffix: string): (r: Option<Topic>)
    ensures forall t :: r == Some(t) <==> TopicSuffix(t) == suffix
  {
    if suffix == "brew.build.complete" then Some(BrewBuildComplete)
    else if suffix == "brew.build.tag" then Some(BrewBuildTag)
    else if suffix == "brew.build.untag" then Some(BrewBuildUntag)
    else if suffix == "errata.activity.status" then Some(ErrataActivityStatus)
    else if suffix == "pnc.sbom.spike.complete" then Some(SbomSpikeComplete)
    else if suffix == "snitch.contentmanifest.create" then Some(ContentManifestCreate)
    else None
  }

  /** `VIRTUAL_TOPIC_PREFIX` for the consumer name `UMB_CONSUMER`. */
  function VirtualTopicPrefix(consumer: string): string
  {
    "Consumer." + consumer + ".VirtualTopic.eng"
  }

  /** The address listened on for a topic. */
  function Address(consumer: string, t: Topic): string
  {
    VirtualTopicPrefix(consumer) + "." + TopicSuffix(t)
  }

  /** `virtual_topic_addresses.get(address)`: the topic listened on at an address. */
  function TopicAt(consumer: string, address: string): (r: Option<Topic>)
    ensures forall t :: r == Some(t) <==> address == Address(consumer, t)
  {
    var prefix := VirtualTopicPrefix(consumer) + ".";
    if StartsWith(address, prefix) then
      assert address == prefix + address[|prefix|..];
      TopicOf(address[|prefix|..])
    else None
  }

  /** The handler each topic's messages go to. */
  datatype Handler = BrewBuilds | BrewTags | EtShippedErrata | SbomerComplete | PyxisManifestCreate

  function HandlerFor(t: Topic): Handler
  {
    match t
    case BrewBuildComplete => BrewBuilds
    case BrewBuildTag => BrewTags
    case BrewBuildUntag => BrewTags
    case ErrataActivityStatus => EtShippedErrata
    case SbomSpikeComplete => SbomerComplete
    case ContentManifestCreate => PyxisManifestCreate
  }

  /** The general topic form brokers deliver addresses in. */
  const TopicScheme: string := "topic://"

  /** The address as listened on: every "topic://" becomes "Consumer.{consumer}."; no address is "". */
  function LocalAddress(consumer: string, address: Option<string>): string
  {
    ReplaceAll(address.GetOr(""), TopicScheme, "Consumer." + consumer + ".")
  }

  /** The topic a message is for, or the ValueError `on_message` raises for a missing or unknown address. */
  function Route(consumer: string, id: string, address: Option<string>): (r: Result<Topic>)
    ensures r.Ok? <==> TopicAt(consumer, LocalAddress(consumer, address)).Some?
    ensures r.Ok? ==> LocalAddress(consumer, address) == Address(consumer, r.value)
    ensures LocalAddress(consumer, address) == "" ==> r == Err(ValueError("UMB event " + id + " had no address!"))
  {
    var local := LocalAddress(consumer, address);
    var topic := TopicAt(consumer, local);
    if local == "" then Err(ValueError("UMB event " + id + " had no address!"))
    else if topic.Some? then Ok(topic.value)
    else Err(ValueError("UMB event " + id + " had unrecognized address: " + address.GetOr("None")))
  }

  /** Replacing a pattern at the very start of a string that holds it nowhere else. */
  lemma ReplaceLeading(r: string, pat: string, rep: string)
    requires |pat| > 0 && !Contains(r, pat)
    ensures ReplaceAll(pat + r, pat, rep) == rep + r
  {
    var s := pat + r;
    assert s[..|pat|] == pat;
    assert s[|pat|..] == r;
    assert IndexOf(s, pat) == Some(0);
    assert s[..0] == "";
    assert Split(r, pat) == [r];
    assert Split(s, pat) == [""] + [r];
    assert Join([""] + [r], rep) == "" + rep + Join([r], rep);
  }

  /**
   * A message delivered on a general address `topic://<r>` is routed to topic `t` exactly when `r` is
   * `VirtualTopic.eng.<suffix of t>`.
   */
  lemma {:induction false} RoutesTopicAddress(consumer: string, id: string, r: string, t: Topic)
    requires !Contains(r, TopicScheme)
    ensures Route(consumer, id, Some(TopicScheme + r)) == Ok(t) <==> r == "VirtualTopic.eng." + TopicSuffix(t)
  {
    var head := "Consumer." + consumer + ".";
    ReplaceLeading(r, TopicScheme, head);
    assert LocalAddress(consumer, Some(TopicScheme + r)) == head + r;
    AddressParts(consumer, t);
    PrefixCancels(head, r, "VirtualTopic.eng." + TopicSuffix(t));
  }

  /** The address of a topic is the consumer's part followed by the general topic's name. */
  lemma AddressParts(consumer: string, t: Topic)
    ensures Address(consumer, t) == ("Consumer." + consumer + ".") + ("VirtualTopic.eng." + TopicSuffix(t))
  {
    var v, s := "VirtualTopic.eng", TopicSuffix(t);
    assert ".VirtualTopic.eng" == "." + v && "VirtualTopic.eng." == v + ".";
    calc {
      Address(consumer, t);
      ((("Consumer." + consumer) + ("." + v)) + ".") + s;
      (("Consumer." + consumer) + ".") + ((v + ".") + s);
    }
  }

  lemma PrefixCancels(head: string, a: string, b: string)
    ensures head + a == head + b <==> a == b
  {
    if head + a == head + b {
      assert a == (head + a)[|head|..];
      assert b == (head + b)[|head|..];
    }
  }

  /** A task request a handler schedules. */
  datatype TaskRequest =
    | FetchBrewBuild(buildId: string)
    | UpdateBrewTags(buildId: string, tagAdded: Option<string>, tagRemoved: Option<string>)
    | HandleShippedErrata(erratumId: string, status: string)
    | HandlePncErrataReleased(erratumId: string, status: string)
    | FetchPncSbom(purl: string, errataTool: string, build: string, sbom: string)
    | FetchPyxisManifest(oid: string)

  /** The first of `keys` the body lacks: `message[key]` raises KeyError at it. */
  function FirstMissing(body: map<string, string>, keys: seq<string>): (r: Option<string>)
    ensures r.None? <==> forall k :: k in keys ==> k in body
    ensures r.Some? ==> r.value in keys && r.value !in body
  {
    if keys == [] then None
    else if keys[0] !in body then Some(keys[0])
    else FirstMissing(body, keys[1..])
  }

  /** The body fields each handler reads, in the order it reads them. */
  function FieldsRead(h: Handler): seq<string>
  {
    match h
    case BrewBuilds => ["info.build_id"]
    case BrewTags => ["build.build_id", "tag.name"]
    case EtShippedErrata => ["errata_id", "errata_status", "product", "release"]
    case SbomerComplete => ["purl", "productConfig.errataTool", "build", "sbom"]
    case PyxisManifestCreate => ["entityData._id.$oid"]
  }

  /** The body holds every field the handler reads. */
  predicate HasFields(h: Handler, body: map<string, string>)
  {
    match h
    case BrewBuilds => "info.build_id" in body
    case BrewTags => "build.build_id" in body && "tag.name" in body
    case EtShippedErrata => "errata_id" in body && "errata_status" in body && "product" in body && "release" in body
    case SbomerComplete => "purl" in body && "productConfig.errataTool" in body && "build" in body && "sbom" in body
    case PyxisManifestCreate => "entityData._id.$oid" in body
  }

  /** When no field the handler reads is missing, the body holds all of them. */
  lemma FieldsPresent(h: Handler, body: map<string, string>)
    requires FirstMissing(body, FieldsRead(h)).None?
    ensures HasFields(h, body)
  {
    var keys := FieldsRead(h);
    assert forall i :: 0 <= i < |keys| ==> keys[i] in body;
  }

  /** The request `brew_tags` schedules: the tag is added for a ".tag" address and removed otherwise. */
  function BrewTagsRequest(address: string, buildId: string, tag: string): (req: TaskRequest)
    ensures req.UpdateBrewTags? && req.buildId == buildId
    ensures EndsWith(address, ".tag") <==> req.tagAdded == Some(tag)
    ensures !EndsWith(address, ".tag") <==> req.tagRemoved == Some(tag)
    ensures req.tagAdded.None? || req.tagRemoved.None?
  {
    if EndsWith(address, ".tag") then UpdateBrewTags(buildId, Some(tag), None)
    else UpdateBrewTags(buildId, None, Some(tag))
  }

  /** The task request a handler makes of a body holding every field it reads. */
  function Request(h: Handler, address: string, body: map<string, string>, isSbomerProduct: (string, string) -> bool)
    : (req: TaskRequest)
    requires HasFields(h, body)
    ensures h == BrewBuilds ==> req == FetchBrewBuild(body["info.build_id"])
    ensures h == BrewTags ==> req == BrewTagsRequest(address, body["build.build_id"], body["tag.name"])
    ensures h == EtShippedErrata ==>
              (isSbomerProduct(body["product"], body["release"]) <==> req.HandlePncErrataReleased?) &&
              (req.HandlePncErrataReleased? || req.HandleShippedErrata?) &&
              req.erratumId == body["errata_id"] && req.status == body["errata_status"]
    ensures h == SbomerComplete ==>
              req == FetchPncSbom(body["purl"], body["productConfig.errataTool"], body["build"], body["sbom"])
    ensures h == PyxisManifestCreate ==> req == FetchPyxisManifest(body["entityData._id.$oid"])
  {
    match h
    case BrewBuilds => FetchBrewBuild(body["info.build_id"])
    case BrewTags =>
      BrewTagsRequest(address, body["build.build_id"], body["tag.name"])
    case EtShippedErrata =>
      if isSbomerProduct(body["product"], body["release"]) then HandlePncErrataReleased(body["errata_id"], body["errata_status"])
      else HandleShippedErrata(body["errata_id"], body["errata_status"])
    case SbomerComplete =>
      FetchPncSbom(body["purl"], body["productConfig.errataTool"], body["build"], body["sbom"])
    case PyxisManifestCreate => FetchPyxisManifest(body["entityData._id.$oid"])
  }

  /** The handlers that read the body inside their `try`, so that a missing field only fails the scheduling. */
  predicate ReadsInsideTry(h: Handler)
  {
    h == SbomerComplete || h == PyxisManifestCreate
  }

  /** A brew tag message on the tag topic adds the tag, and one on the untag topic removes it. */
  lemma TagAndUntag(consumer: string, body: map<string, string>, isSbomerProduct: (string, string) -> bool)
    requires "build.build_id" in body && "tag.name" in body
    ensures Request(BrewTags, Address(consumer, BrewBuildTag), body, isSbomerProduct).tagAdded == Some(body["tag.name"])
    ensures Request(BrewTags, Address(consumer, BrewBuildUntag), body, isSbomerProduct).tagRemoved ==
            Some(body["tag.name"])
  {
    var untag := Address(consumer, BrewBuildUntag);
    assert untag[|untag| - 4..] == "ntag";
  }

  /**
   * What a handler returns: whether its task was scheduled, `schedule` answering false where `apply_async` or
   * `delay` raised. A missing body field raises out of the brew and errata handlers, and makes the SBOMer and
   * Pyxis handlers return false.
   */
  function Handle(h: Handler, address: string, body: map<string, string>, isSbomerProduct: (string, string) -> bool,
                  schedule: TaskRequest -> bool): (r: Result<bool>)
    ensures FirstMissing(body, FieldsRead(h)).Some? ==>
              r == (if ReadsInsideTry(h) then Ok(false) else Err(KeyError(FirstMissing(body, FieldsRead(h)).value)))
    ensures FirstMissing(body, FieldsRead(h)).None? ==>
              HasFields(h, body) && r == Ok(schedule(Request(h, address, body, isSbomerProduct)))
  {
    match FirstMissing(body, FieldsRead(h))
    case Some(key) => if ReadsInsideTry(h) then Ok(false) else Err(KeyError(key))
    case None =>
      FieldsPresent(h, body);
      Ok(schedule(Request(h, address, body, isSbomerProduct)))
  }

  /** A handler returns false exactly when its scheduling failed, a missing field counting as a failure only inside the try. */
  lemma HandlerFalseIffNotScheduled(h: Handler, address: string, body: map<string, string>,
                                    isSbomerProduct: (string, string) -> bool, schedule: TaskRequest -> bool)
    requires Handle(h, address, body, isSbomerProduct, schedule).Ok?
    ensures Handle(h, address, body, isSbomerProduct, schedule) == Ok(false) <==>
              (FirstMissing(body, FieldsRead(h)).Some? && ReadsInsideTry(h)) ||
              (FirstMissing(body, FieldsRead(h)).None? && !schedule(Request(h, address, body, isSbomerProduct)))
  {
  }

  /** How a delivered message was settled with the broker. */
  datatype Settlement = Accepted(id: string) | Released(id: string, delivered: bool)

  /** `UMBReceiverHandler`, with the settlements it has made so far. */
  class ReceiverHandler {
    const consumer: string
    var settled: seq<Settlement>

    constructor(consumer: string)
      ensures this.consumer == consumer && settled == []
    {
      this.consumer := consumer;
      settled := [];
    }

    /**
     * `on_message`: the message is routed by its address, and accepted when its handler returns true or
     * released as delivered when it returns false; an exception leaves it unsettled.
     */
    method OnMessage(id: string, address: Option<string>, body: map<string, string>,
                     isSbomerProduct: (string, string) -> bool, schedule: TaskRequest -> bool)
      returns (r: Result<bool>)
      modifies this
      ensures Route(consumer, id, address).Err? ==> r == Err(Route(consumer, id, address).error)
      ensures Route(consumer, id, address).Ok? ==>
                r == Handle(HandlerFor(Route(consumer, id, address).value), address.GetOr(""), body,
                            isSbomerProduct, schedule)
      ensures r.Err? ==> settled == old(settled)
      ensures r == Ok(true) ==> settled == old(settled) + [Accepted(id)]
      ensures r == Ok(false) ==> settled == old(settled) + [Released(id, true)]
    {
      var topic := Route(consumer, id, address);
      if topic.Err? {
        return Err(topic.error);
      }
      r := Handle(HandlerFor(topic.value), address.GetOr(""), body, isSbomerProduct, schedule);
      if r.Err? {
        return;
      }
      if r.value {
        settled := settled + [Accepted(id)];
      } else {
        settled := settled + [Released(id, true)];
      }
    }
  }

  /** The message filter of each topic: only shipped errata on the errata status topic, everything elsewhere. */
  function Selector(t: Topic): (sel: string)
    ensures sel != "" <==> t == ErrataActivityStatus
  {
    if t == ErrataActivityStatus then "errata_status = 'SHIPPED_LIVE'" else ""
  }

  /** The receiver options `on_start` passes: a selector option only for a non-empty selector. */
  function ReceiverOptions(t: Topic): (opts: seq<string>)
    ensures |opts| <= 1
    ensures opts == [] <==> t != ErrataActivityStatus
    ensures opts != [] ==> opts[0] == Selector(t)
  {
    var sel := Selector(t);
    if sel != "" then [sel] else []
  }
}
