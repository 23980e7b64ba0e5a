/**
 * The reply to one message: a custom response if a trigger matches,
 * otherwise the card replies for every `[[...]]` reference, replaced by the
 * spell text for the first `&lt;...&gt;` reference when that spell is found.
 */
module Dispatch {
  import opened Wrappers
  import opened Text
  import opened Extract
  import opened Spells
  import opened Triggers

  /** The resolver output for each card query, in order. */
  function Resolved(queries: seq<string>, fetch: string -> string): (r: seq<string>)
    ensures |r| == |queries|
    ensures forall k :: 0 <= k < |queries| ==> r[k] == fetch(queries[k])
  {
    seq(|queries|, k requires 0 <= k < |queries| => fetch(queries[k]))
  }

  /** The accumulated card output: every resolver reply followed by a newline. */
  function CardOutput(queries: seq<string>, fetch: string -> string): string {
    if queries == [] then ""
    else CardOutput(queries[..|queries| - 1], fetch) + fetch(queries[|queries| - 1]) + "\n"
  }

  lemma {:induction false} JoinSnoc(parts: seq<string>, x: string, sep: char)
    requires |parts| >= 1
    ensures Join(parts + [x], sep) == Join(parts, sep) + [sep] + x
    decreases |parts|
  {
    if |parts| > 1 {
      assert (parts + [x])[1..] == parts[1..] + [x];
      JoinSnoc(parts[1..], x, sep);
    }
  }

  /** The card output is the resolver replies joined by newlines, with a
      final newline. */
  lemma {:induction false} CardOutputIsJoin(queries: seq<string>, fetch: string -> string)
    requires queries != []
    ensures CardOutput(queries, fetch) == Join(Resolved(queries, fetch), '\n') + "\n"
    decreases |queries|
  {
    var n := |queries|;
    var init := queries[..n - 1];
    if n > 1 {
      CardOutputIsJoin(init, fetch);
      assert Resolved(queries, fetch) == Resolved(init, fetch) + [fetch(queries[n - 1])];
      JoinSnoc(Resolved(init, fetch), fetch(queries[n - 1]), '\n');
    } else {
      assert init == [];
    }
  }

  /** The card part of the reply: the resolver replies to the card
      references, or "" when there is none. */
  function CardReplies(message: string, fetch: string -> string): string {
    match References(CardRef, message)
    case None => ""
    case Some(queries) => CardOutput(queries, fetch)
  }

  /** The card part of the reply is the resolver replies joined by newlines,
      with a final newline. */
  lemma CardRepliesIsJoin(message: string, fetch: string -> string)
    ensures CardReplies(message, fetch) ==
      match References(CardRef, message)
      case None => ""
      case Some(queries) => Join(Resolved(queries, fetch), '\n') + "\n"
  {
    if References(CardRef, message).Some? {
      CardOutputIsJoin(References(CardRef, message).value, fetch);
    }
  }

  /** The spell part of the reply, once the card output is known: nothing
      when the database cannot be opened or searched; the formatted spell
      when a name is chosen among the search rows; otherwise the card output. */
  function SpellReply(spell: string, cardOutput: string, db: Option<SpellDb>): string {
    match db
    case None => ""
    case Some(d) =>
      match d.search(spell)
      case QueryError => ""
      case Rows(rows) =>
        var name := ClosestName(rows, spell);
        if name != "" then FormatDnDSpellText(name, d) else cardOutput
  }

  /** The reply to a message. */
  function Reply(custom: seq<Custom>, matches: (string, string) -> bool, intn: nat -> nat,
                 fetch: string -> string, db: Option<SpellDb>, message: string): string
    requires HasResponses(custom, message, matches) && IsDraw(intn)
  {
    var triggered := CustomReply(custom, message, matches, intn);
    if triggered != "" then triggered
    else
      var cardOutput := CardReplies(message, fetch);
      match References(SpellRef, message)
      case None => cardOutput
      case Some(spells) => SpellReply(spells[0], cardOutput, db)
  }

  /** The card loop of processMessage: appends each resolver reply and a
      newline to `ret`, in order. */
  method AppendCardReplies(ret0: string, queries: seq<string>, fetch: string -> string)
    returns (ret: string)
    ensures ret == ret0 + CardOutput(queries, fetch)
  {
    ret := ret0;
    for i := 0 to |queries|
      invariant ret == ret0 + CardOutput(queries[..i], fetch)
    {
      assert queries[..i + 1][..i] == queries[..i];
      ret := ret + fetch(queries[i]) + "\n";
    }
    assert queries[..|queries|] == queries;
  }

  /** processMessage: custom responses override everything; card replies are
      accumulated in order; the loop over spell references returns during its
      first iteration, so only the first spell reference is looked up. */
  method ProcessMessage(custom: seq<Custom>, matches: (string, string) -> bool, intn: nat -> nat,
                        fetch: string -> string, db: Option<SpellDb>, message: string)
    returns (ret: string)
    requires HasResponses(custom, message, matches) && IsDraw(intn)
    ensures ret == Reply(custom, matches, intn, fetch, db, message)
  {
    ret := CheckCustomResponseMatches(custom, message, matches, intn);
    if ret != "" {
      return ret;
    }
    var mtgCards := GetMTGStringsFromMessage(message);
    if mtgCards.Some? {
      ret := AppendCardReplies(ret, mtgCards.value, fetch);
    }
    assert ret == CardReplies(message, fetch);
    var dndSpells := GetDNDStringsFromMessage(message);
    if dndSpells.Some? {
      var s := dndSpells.value[0];
      if db.None? {
        return "";
      }
      var rows := db.value.search(s);
      if rows.QueryError? {
        return "";
      }
      var closeName := ClosestSpellName(rows.rows, s);
      if closeName != "" {
        ret := FormatDnDSpellText(closeName, db.value);
      }
      return ret;
    }
  }

  // ---------------------------------------------------------------------
  // What the reply means

  /** When a trigger matches, the custom reply is returned unchanged: one of
      the first matching rule's replies plus a newline, whatever the message
      references and whatever the resolvers would return. */
  lemma TriggerOverrides(custom: seq<Custom>, matches: (string, string) -> bool, intn: nat -> nat,
                         fetch: string -> string, db: Option<SpellDb>, message: string, k: nat)
    requires HasResponses(custom, message, matches) && IsDraw(intn)
    requires k < |custom| && matches(custom[k].trigger, message)
    ensures Reply(custom, matches, intn, fetch, db, message) == CustomReply(custom, message, matches, intn)
    ensures var ret := Reply(custom, matches, intn, fetch, db, message);
      && ret != "" && ret[|ret| - 1] == '\n'
      && exists e ::
        && 0 <= e <= k && matches(custom[e].trigger, message)
        && (forall j :: 0 <= j < e ==> !matches(custom[j].trigger, message))
        && ret[..|ret| - 1] in custom[e].response
  {
    CustomReplyShape(custom, message, matches, intn);
  }

  /** Without a trigger or a spell reference, the reply is the resolver
      replies to the card references joined by newlines with a final
      newline, or empty when there is no card reference. */
  lemma CardsOnlyReply(custom: seq<Custom>, matches: (string, string) -> bool, intn: nat -> nat,
                       fetch: string -> string, db: Option<SpellDb>, message: string)
    requires HasResponses(custom, message, matches) && IsDraw(intn)
    requires forall j :: 0 <= j < |custom| ==> !matches(custom[j].trigger, message)
    requires References(SpellRef, message).None?
    ensures var ret := Reply(custom, matches, intn, fetch, db, message);
      match References(CardRef, message)
      case None => ret == ""
      case Some(queries) => ret == Join(Resolved(queries, fetch), '\n') + "\n"
  {
    CustomReplyShape(custom, message, matches, intn);
    assert Reply(custom, matches, intn, fetch, db, message) == CardReplies(message, fetch);
    CardRepliesIsJoin(message, fetch);
  }

  /** A found spell replaces the card output: without a matching trigger the
      reply is the formatted text of the name chosen for the first spell
      reference, so it is the same whatever the card resolver returns. */
  lemma SpellReplacesCards(custom: seq<Custom>, matches: (string, string) -> bool, intn: nat -> nat,
                           fetch1: string -> string, fetch2: string -> string, d: SpellDb,
                           message: string, spells: seq<string>)
    requires HasResponses(custom, message, matches) && IsDraw(intn)
    requires References(SpellRef, message) == Some(spells)
    requires d.search(spells[0]).Rows? && ClosestName(d.search(spells[0]).rows, spells[0]) != ""
    ensures Reply(custom, matches, intn, fetch1, Some(d), message)
         == Reply(custom, matches, intn, fetch2, Some(d), message)
    ensures (forall j :: 0 <= j < |custom| ==> !matches(custom[j].trigger, message)) ==>
      Reply(custom, matches, intn, fetch1, Some(d), message)
        == FormatDnDSpellText(ClosestName(d.search(spells[0]).rows, spells[0]), d)
  {
    CustomReplyShape(custom, message, matches, intn);
  }

  /** When the spell search finds no name, the card output stands: the reply
      is as if the message had no spell reference. */
  lemma SpellNotFoundKeepsCards(custom: seq<Custom>, matches: (string, string) -> bool, intn: nat -> nat,
                                fetch: string -> string, d: SpellDb, message: string)
    requires HasResponses(custom, message, matches) && IsDraw(intn)
    requires forall j :: 0 <= j < |custom| ==> !matches(custom[j].trigger, message)
    requires References(SpellRef, message).Some?
    requires d.search(References(SpellRef, message).value[0]).Rows?
    requires ClosestName(d.search(References(SpellRef, message).value[0]).rows,
                         References(SpellRef, message).value[0]) == ""
    ensures Reply(custom, matches, intn, fetch, Some(d), message)
         == match References(CardRef, message)
            case None => ""
            case Some(queries) => Join(Resolved(queries, fetch), '\n') + "\n"
  {
    CustomReplyShape(custom, message, matches, intn);
    assert Reply(custom, matches, intn, fetch, Some(d), message) == CardReplies(message, fetch);
    CardRepliesIsJoin(message, fetch);
  }
}
