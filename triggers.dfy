/**
 * Custom responses: configured trigger patterns, each with one or more
 * canned replies, checked in order against every message.
 */
module Triggers {
  import opened Wrappers

  /** One configured rule: a trigger pattern and the replies to choose from. */
  datatype Custom = Custom(trigger: string, response: seq<string>)


  /** `rand.Intn`: a draw below any positive bound. */
  ghost predicate IsDraw(intn: nat -> nat) {
    forall n: nat :: n > 0 ==> intn(n) < n
  }

  /** The index of the first rule whose pattern matches the message, with
      `matches(pattern, message)` standing for the regular expression test. */
  function FirstMatching(custom: seq<Custom>, message: string, matches: (string, string) -> bool): (r: Option<nat>)
    ensures r.Some? ==>
      && r.value < |custom| && matches(custom[r.value].trigger, message)
      && forall j :: 0 <= j < r.value ==> !matches(custom[j].trigger, message)
    ensures r.None? <==> forall j :: 0 <= j < |custom| ==> !matches(custom[j].trigger, message)
  {
    if custom == [] then None
    else if matches(custom[0].trigger, message) then Some(0)
    else match FirstMatching(custom[1..], message, matches)
      case None => None
      case Some(k) => Some(k + 1)
  }

  /** The first rule that matches the message has a reply to choose from
      (`rand.Intn(0)` would panic); the other rules are never drawn from. */
  predicate HasResponses(custom: seq<Custom>, message: string, matches: (string, string) -> bool) {
    match FirstMatching(custom, message, matches)
    case None => true
    case Some(k) => custom[k].response != []
  }

  /** The custom reply: one reply of the first matching rule, picked by the
      draw, followed by a newline; empty when no rule matches. */
  function CustomReply(custom: seq<Custom>, message: string, matches: (string, string) -> bool,
                       intn: nat -> nat): string
    requires HasResponses(custom, message, matches) && IsDraw(intn)
  {
    match FirstMatching(custom, message, matches)
    case None => ""
    case Some(k) => custom[k].response[intn(|custom[k].response|)] + "\n"
  }

  /** The rules are tried in order and the first match returns at once. */
  method CheckCustomResponseMatches(custom: seq<Custom>, message: string,
                                    matches: (string, string) -> bool, intn: nat -> nat)
    returns (ret: string)
    requires HasResponses(custom, message, matches) && IsDraw(intn)
    ensures ret == CustomReply(custom, message, matches, intn)
  {
    ret := "";
    for i := 0 to |custom|
      invariant forall j :: 0 <= j < i ==> !matches(custom[j].trigger, message)
    {
      var c := custom[i];
      if matches(c.trigger, message) {
        return ret + c.response[intn(|c.response|)] + "\n";
      }
    }
  }

  /** The custom reply is empty exactly when no rule matches; otherwise it is
      one of the first matching rule's replies followed by a newline. */
  lemma CustomReplyShape(custom: seq<Custom>, message: string, matches: (string, string) -> bool,
                         intn: nat -> nat)
    requires HasResponses(custom, message, matches) && IsDraw(intn)
    ensures var ret := CustomReply(custom, message, matches, intn);
      && (ret == "" <==> forall j :: 0 <= j < |custom| ==> !matches(custom[j].trigger, message))
      && (ret != "" ==>
            && ret[|ret| - 1] == '\n'
            && exists k ::
              && 0 <= k < |custom| && matches(custom[k].trigger, message)
              && (forall j :: 0 <= j < k ==> !matches(custom[j].trigger, message))
              && ret[..|ret| - 1] in custom[k].response)
  {
    var ret := CustomReply(custom, message, matches, intn);
    var f := FirstMatching(custom, message, matches);
    if f.Some? {
      var k := f.value;
      var reply := custom[k].response[intn(|custom[k].response|)];
      assert ret == reply + "\n";
      assert ret[..|ret| - 1] == reply;
    }
  }
}
