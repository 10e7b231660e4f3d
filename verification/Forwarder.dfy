/** Forwarding between servers with a loop header: each forwarder puts its own id in front of the
    header it received and refuses a request whose header already contains that id. */
module Forwarder {
  import opened Text

  type Headers = map<string, string>

  const LOOP_HEADER := "X-LOOP-CUSTODIA"

  datatype Reply = Reply(status: int, content: string)

  /** The loop header sent on. */
  function Extend(uuid: string, loop: Option<string>): string {
    if loop.Some? then uuid + "," + loop.value else uuid
  }

  /** The loop test is a substring test; a missing header counts as empty. */
  predicate Refuses(uuid: string, loop: Option<string>) {
    Contains(if loop.Some? then loop.value else "", uuid)
  }

  /** What `_response` makes of the next server's reply: an error status is raised as such. */
  function Relay(reply: Reply): Reply {
    if reply.status < 200 || reply.status > 299 then Reply(reply.status, "") else reply
  }

  function LoopOf(headers: Headers): Option<string> {
    if LOOP_HEADER in headers then Some(headers[LOOP_HEADER]) else None
  }

  class Forwarder {
    const uuid: string
    var forwardHeaders: Headers

    constructor (uuid: string, configured: Headers)
      ensures this.uuid == uuid && forwardHeaders == configured["X-LOOP-CUSTODIA" := uuid]
    {
      this.uuid := uuid;
      forwardHeaders := configured[LOOP_HEADER := uuid];
    }

    /** The headers sent on, or `None` for the 502 of a detected loop. */
    method Forward(request: Headers) returns (sent: Option<Headers>)
      requires "X-LOOP-CUSTODIA" in forwardHeaders && forwardHeaders["X-LOOP-CUSTODIA"] == uuid
      ensures "X-LOOP-CUSTODIA" !in request ==>
                if uuid == "" then sent.None? else sent == Some(forwardHeaders)
      ensures "X-LOOP-CUSTODIA" in request ==>
                if Contains(request["X-LOOP-CUSTODIA"], uuid) then sent.None?
                else sent == Some(forwardHeaders["X-LOOP-CUSTODIA" := uuid + "," + request["X-LOOP-CUSTODIA"]])
      ensures sent.None? <==> Refuses(uuid, LoopOf(request))
      ensures sent.Some? ==> LoopOf(sent.value) == Some(Extend(uuid, LoopOf(request)))
    {
      assert OccursAt("", "", 0);
      var headers := forwardHeaders;
      var loop := LoopOf(request);
      if loop.Some? {
        headers := headers[LOOP_HEADER := headers[LOOP_HEADER] + "," + loop.value];
      }
      if Refuses(uuid, loop) { return None; }
      return Some(headers);
    }

    method Respond(reply: Reply) returns (answer: Reply)
      ensures answer.status == reply.status
      ensures answer.content == if 200 <= reply.status <= 299 then reply.content else ""
    {
      if reply.status < 200 || reply.status > 299 {
        return Reply(reply.status, "");
      }
      answer := Reply(reply.status, "");
      if reply.content != [] { answer := answer.(content := reply.content); }
    }
  }

  // ---------------------------------------------------------------- ids in a header

  /** Distinct ids of one length without commas, as UUID strings are. */
  ghost predicate ProperIds(ids: seq<string>) {
    (forall i :: 0 <= i < |ids| ==> |ids[i]| > 0 && ',' !in ids[i])
    && (forall i, j :: 0 <= i < |ids| && 0 <= j < |ids| ==> |ids[i]| == |ids[j]|)
    && (forall i, j :: 0 <= i < j < |ids| ==> ids[i] != ids[j])
  }

  /** An id of the common length occurs in a header either as its first entry or further on. */
  lemma OccursInEntry(head: string, rest: string, id: string)
    requires |head| == |id| > 0 && ',' !in id
    ensures Contains(head + "," + rest, id) <==> head == id || Contains(rest, id)
  {
    var s := head + "," + rest;
    if Contains(s, id) {
      var i: nat :| i <= |s| && OccursAt(id, s, i);
      OccurrencePlace(head, rest, id, i);
    }
    if head == id {
      assert s[0..|id|] == head && OccursAt(id, s, 0);
    }
    if Contains(rest, id) {
      var j: nat :| j <= |rest| && OccursAt(id, rest, j);
      OccursLater(head, rest, id, j);
    }
  }

  lemma OccurrencePlace(head: string, rest: string, id: string, i: nat)
    requires |head| == |id| > 0 && ',' !in id && OccursAt(id, head + "," + rest, i)
    ensures head == id || Contains(rest, id)
  {
    var s, n := head + "," + rest, |id|;
    if i == 0 {
      assert s[..n] == head;
    } else if i <= n {
      WindowHoldsComma(head, rest, id, i);
    } else {
      var j := i - n - 1;
      assert s[i..i + n] == rest[j..j + n];
      assert OccursAt(id, rest, j);
    }
  }

  lemma OccursLater(head: string, rest: string, id: string, j: nat)
    requires |head| == |id| && OccursAt(id, rest, j)
    ensures Contains(head + "," + rest, id)
  {
    var s, k := head + "," + rest, |head| + 1 + j;
    assert s[k..k + |id|] == rest[j..j + |id|];
    assert OccursAt(id, s, k);
  }

  lemma WindowHoldsComma(head: string, rest: string, id: string, i: nat)
    requires |head| == |id| && 0 < i <= |id| && OccursAt(id, head + "," + rest, i)
    ensures ',' in id
  {
    var s, n := head + "," + rest, |id|;
    assert s[n] == ',' && s[i..i + n][n - i] == s[n];
  }

  lemma OccursAlone(head: string, id: string)
    requires |head| == |id| > 0
    ensures Contains(head, id) <==> head == id
  {
    assert head[0..|head|] == head;
    if head == id { assert OccursAt(id, head, 0); }
  }

  // ---------------------------------------------------------------- journeys

  /** Where a request goes after the forwarders visited so far: any graph, any routing. */
  datatype Hop = Next(to: nat) | Final(reply: Reply)

  type Route = seq<nat> -> Hop

  ghost predicate WithinGraph(n: nat, route: Route) {
    forall visited :: route(visited).Next? ==> route(visited).to < n
  }

  ghost predicate Distinct(visited: seq<nat>, n: nat) {
    (forall i :: 0 <= i < |visited| ==> visited[i] < n)
    && (forall i, j :: 0 <= i < j < |visited| ==> visited[i] != visited[j])
  }

  /** The pigeonhole principle. */
  lemma {:induction false} DistinctBounded(visited: seq<nat>, n: nat)
    requires Distinct(visited, n)
    ensures |visited| <= n
    decreases n
  {
    assert visited == [] || visited[0] < n;
    if n > 0 {
      if i :| 0 <= i < |visited| && visited[i] == n - 1 {
        DistinctBounded(visited[..i] + visited[i + 1..], n - 1);
      } else {
        DistinctBounded(visited, n - 1);
      }
    }
  }

  /** The header a request carries after visiting these forwarders. */
  function HeaderAfter(ids: seq<string>, visited: seq<nat>): Option<string>
    requires forall i :: 0 <= i < |visited| ==> visited[i] < |ids|
  {
    if visited == [] then None
    else Some(Extend(ids[visited[|visited| - 1]], HeaderAfter(ids, visited[..|visited| - 1])))
  }

  /** The substring test is list membership. */
  lemma {:induction false} RefusesIffVisited(ids: seq<string>, visited: seq<nat>, at: nat)
    requires ProperIds(ids) && Distinct(visited, |ids|) && at < |ids|
    ensures Refuses(ids[at], HeaderAfter(ids, visited)) <==> at in visited
  {
    if visited != [] {
      var init, last := visited[..|visited| - 1], visited[|visited| - 1];
      RefusesIffVisited(ids, init, at);
      assert visited == init + [last];
      assert at in visited <==> at in init || at == last;
      var before := HeaderAfter(ids, init);
      if before.Some? {
        OccursInEntry(ids[last], before.value, ids[at]);
      } else {
        OccursAlone(ids[last], ids[at]);
      }
    }
  }

  datatype Trace = Trace(visited: seq<nat>, refused: bool, reply: Reply)

  lemma VisitNext(ids: seq<string>, visited: seq<nat>, at: nat)
    requires ProperIds(ids) && Distinct(visited, |ids|) && at < |ids|
    requires !Refuses(ids[at], HeaderAfter(ids, visited))
    ensures Distinct(visited + [at], |ids|) && |visited| < |ids|
    ensures HeaderAfter(ids, visited + [at]) == Some(Extend(ids[at], HeaderAfter(ids, visited)))
  {
    RefusesIffVisited(ids, visited, at);
    AppendDistinct(visited, at, |ids|);
    DistinctBounded(visited + [at], |ids|);
    assert (visited + [at])[..|visited|] == visited && (visited + [at])[|visited|] == at;
  }

  lemma AppendDistinct(visited: seq<nat>, at: nat, n: nat)
    requires Distinct(visited, n) && at < n && at !in visited
    ensures Distinct(visited + [at], n)
  {
  }

  /** A request at forwarder `at` carrying `loop`: each server decides by the header alone. */
  ghost function Journey(ids: seq<string>, route: Route, visited: seq<nat>, at: nat, loop: Option<string>): Trace
    requires ProperIds(ids) && WithinGraph(|ids|, route) && Distinct(visited, |ids|) && at < |ids|
    requires loop == HeaderAfter(ids, visited)
    decreases |ids| - |visited|
  {
    if Refuses(ids[at], loop) then Trace(visited, true, Reply(502, ""))
    else
      VisitNext(ids, visited, at);
      match route(visited + [at])
      case Final(reply) => Trace(visited + [at], false, Relay(reply))
      case Next(to) =>
        var t := Journey(ids, route, visited + [at], to, Some(Extend(ids[at], loop)));
        Trace(t.visited, t.refused, Relay(t.reply))
  }

  /** The forwarders visited are where the routing leads, starting at `start`. */
  ghost predicate Follows(route: Route, start: nat, visited: seq<nat>) {
    visited != [] && visited[0] == start
    && forall k :: 0 < k < |visited| ==> route(visited[..k]) == Next(visited[k])
  }

  lemma {:induction false} JourneyFrom(ids: seq<string>, route: Route, start: nat, visited: seq<nat>, at: nat)
    requires ProperIds(ids) && WithinGraph(|ids|, route) && Distinct(visited, |ids|) && at < |ids|
    requires if visited == [] then at == start else Follows(route, start, visited) && route(visited) == Next(at)
    ensures var t := Journey(ids, route, visited, at, HeaderAfter(ids, visited));
            && Distinct(t.visited, |ids|) && Follows(route, start, t.visited)
            && (if t.refused then
                  route(t.visited).Next? && route(t.visited).to in t.visited && t.reply == Reply(502, "")
                else route(t.visited).Final? && t.reply == Relay(route(t.visited).reply))
    decreases |ids| - |visited|
  {
    RefusesIffVisited(ids, visited, at);
    if at !in visited {
      VisitNext(ids, visited, at);
      var next := visited + [at];
      assert Follows(route, start, next) by {
        forall k | 0 < k < |next| ensures route(next[..k]) == Next(next[k]) {
          if k < |visited| { assert next[..k] == visited[..k]; } else { assert next[..k] == visited; }
        }
      }
      if route(next).Next? {
        JourneyFrom(ids, route, start, next, route(next).to);
      }
    }
  }

  /** In any graph of n forwarders a request is forwarded at most n times; it is refused with 502
      exactly when it comes back to a forwarder it has visited, and otherwise the final server's
      status reaches the first caller unchanged, with its content if it is a success. */
  lemma ForwardingTerminates(ids: seq<string>, route: Route, start: nat)
    requires ProperIds(ids) && WithinGraph(|ids|, route) && start < |ids|
    ensures var t := Journey(ids, route, [], start, None);
            && |t.visited| <= |ids| && Follows(route, start, t.visited)
            && (t.refused <==> route(t.visited).Next? && route(t.visited).to in t.visited)
            && (t.refused ==> t.reply.status == 502)
            && (!t.refused ==> route(t.visited).Final? && t.reply.status == route(t.visited).reply.status
                               && (200 <= t.reply.status <= 299 ==> t.reply == route(t.visited).reply))
  {
    JourneyFrom(ids, route, start, [], start);
    DistinctBounded(Journey(ids, route, [], start, None).visited, |ids|);
  }
}
