/** The gateway's side of the link to the playout server: the connection flag the socket
    events keep, the control routes that write one command line while connected, the
    list query that collects a reply until it is complete or its deadline passes, and the
    list routes that answer with the parsed reply. */
module AmcpBridge {
  import opened JsCore
  import opened AmcpCommands
  import opened AmcpReplies

  /** What the gateway waits 2000 ms for before it gives up on a list reply. */
  const ListDeadlineMs: nat := 2000

  const OfflineReason: string := "CasparCG Offline"
  const TimeoutReason: string := "Timeout AMCP"

  /** How a list query settles: with the reply text, or with a reason for failing. */
  datatype QueryResult = Resolved(text: string) | Rejected(reason: string)

  /** What a control route answers: always `{success: true}`. */
  datatype ControlReply = Success

  /** What `/health` answers. */
  datatype HealthReply = HealthReply(online: bool, casparConnection: bool)

  /** What a list route answers: an HTTP status and a JSON array. */
  datatype ListReply<T> = ListReply(status: nat, items: seq<T>)

  // ---------------------------------------------------------------------------
  // when a reply is complete

  /** A reply is complete once it ends with an empty line, or, for an error status (a reply
      starting with `4` or `5`), once its first line has ended. */
  predicate Complete(buffer: string) {
    || EndsWith(buffer, "\r\n\r\n")
    || ((StartsWith(buffer, "4") || StartsWith(buffer, "5")) && EndsWith(buffer, "\r\n"))
  }

  /** An error status line completes the reply as soon as its CR LF arrives, without the
      empty line a list reply needs; a `200` reply keeps waiting until that empty line. */
  lemma CompletionRule(status: string, rest: string)
    requires |status| > 0
    ensures (status[0] == '4' || status[0] == '5') ==> Complete(status + "\r\n")
    ensures status[0] == '2' && !EndsWith(status + rest, "\r\n\r\n") ==> !Complete(status + rest)
  {
    var b := status + "\r\n";
    assert b[..1] == status[..1];
    assert b[|b| - 2..] == "\r\n";
    assert (status + rest)[..1] == status[..1];
  }

  // ---------------------------------------------------------------------------
  // the pending list query

  /** One call of the list query: the reply text gathered so far and, once settled, its
      result. While it is unsettled its data listener is attached; settling removes it. */
  class ListQuery {
    var buffer: string
    var result: Option<QueryResult>

    /** Settled results keep the whole buffer, an unsettled query never holds a complete
        reply, and a failure leaves nothing gathered. */
    predicate Valid()
      reads this
    {
      && (result.None? ==> !Complete(buffer))
      && (result.Some? && result.value.Resolved? ==> result.value.text == buffer && |buffer| > 0)
      && (result.Some? && result.value.Rejected? ==> buffer == "")
    }

    /** A query issued while connected: nothing gathered yet, listener attached. */
    constructor Pending()
      ensures buffer == "" && result == None
      ensures Valid()
    {
      buffer := "";
      result := None;
    }

    /** A query issued while offline: it fails at once. */
    constructor Offline()
      ensures buffer == "" && result == Some(Rejected(OfflineReason))
      ensures Valid()
    {
      buffer := "";
      result := Some(Rejected(OfflineReason));
    }

    /** A chunk of the reply arrives. While unsettled it is appended to the buffer, and the
        query resolves with the whole buffer the moment the buffer is complete; once settled
        the listener is gone and nothing changes. */
    method OnData(chunk: string)
      requires Valid()
      modifies this
      ensures Valid()
      ensures old(result).Some? ==> buffer == old(buffer) && result == old(result)
      ensures old(result).None? ==> buffer == old(buffer) + chunk
      ensures old(result).None? ==> (result.Some? <==> Complete(buffer))
      ensures result.Some? && old(result).None? ==> result == Some(Resolved(buffer))
    {
      if result.None? {
        buffer := buffer + chunk;
        if Complete(buffer) {
          assert |buffer| > 0 by {
            if EndsWith(buffer, "\r\n\r\n") { } else { assert StartsWith(buffer, "4") || StartsWith(buffer, "5"); }
          }
          result := Some(Resolved(buffer));
        }
      }
    }

    /** The 2000 ms deadline passes. An unsettled query resolves with what it has gathered,
        or fails with the timeout reason when nothing arrived; a settled one is unchanged. */
    method OnDeadline()
      requires Valid()
      modifies this
      ensures Valid()
      ensures buffer == old(buffer)
      ensures old(result).Some? ==> result == old(result)
      ensures old(result).None? && |buffer| > 0 ==> result == Some(Resolved(buffer))
      ensures old(result).None? && buffer == "" ==> result == Some(Rejected(TimeoutReason))
      ensures result.Some?
    {
      if result.None? {
        if |buffer| > 0 {
          result := Some(Resolved(buffer));
        } else {
          result := Some(Rejected(TimeoutReason));
        }
      }
    }
  }

  // ---------------------------------------------------------------------------
  // the gateway

  /** Every text written to the socket is one command line and its CR LF. */
  predicate Framed(written: seq<string>) {
    forall i :: 0 <= i < |written| ==> OneLine(written[i])
  }

  predicate OneLine(w: string) {
    EndsWith(w, "\r\n") && NoLineBreak(w[..|w| - 2])
  }

  class Gateway {
    /** The connection flag: set when the socket connects, cleared on an error or a close. */
    var connected: bool
    /** Every text written to the socket, in order. */
    var written: seq<string>

    constructor ()
      ensures !connected && written == []
    {
      connected := false;
      written := [];
    }

    method OnConnect()
      modifies this
      ensures connected && written == old(written)
    {
      connected := true;
    }

    /** A socket error or close clears the flag; reconnecting is left to the socket. */
    method OnDisconnect()
      modifies this
      ensures !connected && written == old(written)
    {
      connected := false;
    }

    /** `/health`: the gateway is up, and says whether the playout server is connected. */
    function Health(): (h: HealthReply)
      reads this
      ensures h.online
      ensures h.casparConnection <==> connected
    {
      HealthReply(true, connected)
    }

    /** A control route: the command line and its CR LF are written only while connected,
        and the route answers success either way. */
    method Control(r: ControlRequest) returns (reply: ControlReply)
      modifies this
      ensures reply == Success
      ensures connected == old(connected)
      ensures old(connected) ==> written == old(written) + [CommandLine(r) + "\r\n"]
      ensures !old(connected) ==> written == old(written)
      ensures Framed(old(written)) && SingleLineFields(r) ==> Framed(written)
    {
      if connected {
        var w := CommandLine(r) + "\r\n";
        if SingleLineFields(r) {
          CommandNoLineBreak(r);
          assert w[..|w| - 2] == CommandLine(r) && w[|w| - 2..] == "\r\n";
        }
        written := written + [w];
        assert written[|written| - 1] == w;
      }
      reply := Success;
    }

    /** `queryListCommand`: offline, the query fails before anything is written; otherwise
        the command goes out and the query waits for its reply. */
    method StartQuery(command: string) returns (q: ListQuery)
      modifies this
      ensures fresh(q) && q.Valid()
      ensures connected == old(connected)
      ensures !connected ==> q.result == Some(Rejected(OfflineReason)) && written == old(written)
      ensures connected ==> q.result == None && q.buffer == "" && written == old(written) + [command + "\r\n"]
    {
      if !connected {
        q := new ListQuery.Offline();
      } else {
        q := new ListQuery.Pending();
        written := written + [command + "\r\n"];
      }
    }
  }

  // ---------------------------------------------------------------------------
  // the list routes, given how their query settled

  /** `/caspar/files`: offline it answers an empty list without asking; a reply is parsed
      into media entries; a failed query answers 500 and an empty list. */
  function MediaRoute(connected: bool, outcome: QueryResult): ListReply<MediaRecord>
  {
    if !connected then ListReply(200, [])
    else match outcome
      case Resolved(raw) => ListReply(200, ParseMediaList(raw))
      case Rejected(_) => ListReply(500, [])
  }

  /** `/caspar/templates`, the same way with template entries. */
  function TemplateRoute(connected: bool, outcome: QueryResult): ListReply<TemplateRecord>
  {
    if !connected then ListReply(200, [])
    else match outcome
      case Resolved(raw) => ListReply(200, ParseTemplateList(raw))
      case Rejected(_) => ListReply(500, [])
  }

  /** What `/caspar/files` answers: 500 exactly when it is connected and the query failed,
      200 otherwise; its entries are exactly those described by some line of the reply,
      each well formed, and there are none offline or after a failure. */
  lemma MediaRouteSpec(connected: bool, outcome: QueryResult, m: MediaRecord)
    ensures var r := MediaRoute(connected, outcome);
      && (r.status == 500 <==> connected && outcome.Rejected?)
      && (r.status != 500 ==> r.status == 200)
      && (m in r.items <==>
            && connected && outcome.Resolved?
            && exists l :: l in SplitLines(outcome.text) && MediaLine(l) == Some(m))
      && (m in r.items ==> WellFormedMedia(m))
  {
    if connected && outcome.Resolved? {
      MediaListMembers(outcome.text, m);
    }
  }

  /** What `/caspar/templates` answers: the same statuses, and after a reply one entry per
      line the filter keeps, in the order of the lines, each read from its line. */
  lemma TemplateRouteSpec(connected: bool, outcome: QueryResult)
    ensures var r := TemplateRoute(connected, outcome);
      && (r.status == 500 <==> connected && outcome.Rejected?)
      && (r.status != 500 ==> r.status == 200)
      && (!connected || outcome.Rejected? ==> r.items == [])
      && (connected && outcome.Resolved? ==>
            var ks := KeptTemplateLines(SplitLines(outcome.text));
            && |r.items| == |ks|
            && forall i :: 0 <= i < |ks| ==> TemplateLine(ks[i]) == Some(r.items[i]))
  {
    if connected && outcome.Resolved? {
      TemplateLinesKept(SplitLines(outcome.text));
    }
  }

  /** An error status from the playout server settles the query as soon as its line ends,
      and both list routes then answer 200 with an empty list, not a failure. */
  lemma ErrorReplyAnswersEmpty(status: string)
    requires |status| > 0 && (status[0] == '4' || status[0] == '5')
    requires '\n' !in status && '"' !in status
    ensures Complete(status + "\r\n")
    ensures MediaRoute(true, Resolved(status + "\r\n")) == ListReply(200, [])
    ensures TemplateRoute(true, Resolved(status + "\r\n")) == ListReply(200, [])
  {
    CompletionRule(status, "");
    ErrorReplyListsNoMedia(status);
    ErrorReplyListsNoTemplate(status);
  }
}
