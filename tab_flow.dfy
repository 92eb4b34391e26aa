/** The authentication-flow panel: a stepper through the five stages of a
    token-based login, with the actors highlighted and one message arrow
    drawn per stage. */
module TabFlow {
  /** The titles of the stages, in order. */
  const StepTitles: seq<string> := ["Idle", "Login Request", "Token Issuance", "Resource Request", "Access Granted"]

  /** The last stage. */
  const LastStep: nat := 4

  datatype Actor = Client | AuthServer | ResourceApi

  /** A message arrow between two actors, with its caption. */
  datatype Connection = Connection(from: Actor, to: Actor, caption: string)

  /** The arrows drawn at stage `step`. */
  function Connections(step: nat): (cs: seq<Connection>)
    ensures |cs| == (if 1 <= step <= LastStep then 1 else 0)
    ensures forall i :: 0 <= i < |cs| ==> cs[i].from != cs[i].to
  {
    if step == 1 then [Connection(Client, AuthServer, "POST /login")]
    else if step == 2 then [Connection(AuthServer, Client, "Return JWT")]
    else if step == 3 then [Connection(Client, ResourceApi, "GET /data (Auth: Bearer JWT)")]
    else if step == 4 then [Connection(ResourceApi, Client, "200 OK (JSON Data)")]
    else []
  }

  /** Whether `a` sends or receives a message at stage `step`. */
  predicate Involved(step: nat, a: Actor) {
    exists i :: 0 <= i < |Connections(step)| && (Connections(step)[i].from == a || Connections(step)[i].to == a)
  }

  /** The highlight rules of the diagram. */
  predicate ClientHighlighted(step: nat) {
    step > 0
  }

  predicate AuthServerHighlighted(step: nat) {
    step == 1 || step == 2
  }

  predicate ResourceApiHighlighted(step: nat) {
    step >= 3
  }

  predicate ShowsJwtBadge(step: nat) {
    step >= 2
  }

  /** Within the stepper's range an actor is highlighted exactly when it
      takes part in the stage's message. */
  lemma HighlightIsInvolvement(step: nat)
    requires step <= LastStep
    ensures ClientHighlighted(step) <==> Involved(step, Client)
    ensures AuthServerHighlighted(step) <==> Involved(step, AuthServer)
    ensures ResourceApiHighlighted(step) <==> Involved(step, ResourceApi)
  {
    var cs := Connections(step);
    if cs != [] {
      assert cs[0].from == Client || cs[0].to == Client;
    }
  }

  /** Whether the token travels from the authorization server to the client
      at stage `step`. */
  predicate IssuesToken(step: nat) {
    exists i :: 0 <= i < |Connections(step)| && Connections(step)[i].from == AuthServer && Connections(step)[i].to == Client
  }

  /** The client shows the token badge exactly from the stage at which the
      token has been issued onwards. */
  lemma BadgeAfterIssuance(step: nat)
    ensures ShowsJwtBadge(step) <==> exists t :: 0 <= t <= step && IssuesToken(t)
  {
    if step >= 2 {
      assert Connections(2)[0].from == AuthServer && Connections(2)[0].to == Client;
      assert IssuesToken(2);
    } else {
      forall t | 0 <= t <= step
        ensures !IssuesToken(t)
      {
        assert t == 0 || t == 1;
      }
    }
  }

  /** The stepper's state. */
  class AuthFlow {
    var step: nat

    predicate Valid()
      reads this
    {
      step <= LastStep
    }

    constructor()
      ensures Valid() && step == 0
    {
      step := 0;
    }

    /** The stage's title; the invariant keeps the lookup in bounds. */
    function Title(): string
      reads this
      requires Valid()
    {
      StepTitles[step]
    }

    /** Advance one stage; nothing happens at the last one. */
    method NextStep()
      modifies this
      requires Valid()
      ensures Valid()
      ensures old(step) < LastStep ==> step == old(step) + 1
      ensures old(step) == LastStep ==> step == LastStep
    {
      if step < LastStep {
        step := step + 1;
      }
    }

    /** Back to the idle stage from anywhere. */
    method Reset()
      modifies this
      ensures Valid() && step == 0
    {
      step := 0;
    }
  }

  /** Clicking through the whole flow, and once more at the end, shows the
      stage titles in order and stays at the last stage. */
  method WalkThrough() returns (titles: seq<string>, final: nat)
    ensures titles == StepTitles && final == LastStep
  {
    var flow := new AuthFlow();
    titles := [flow.Title()];
    flow.NextStep();
    titles := titles + [flow.Title()];
    flow.NextStep();
    titles := titles + [flow.Title()];
    flow.NextStep();
    titles := titles + [flow.Title()];
    flow.NextStep();
    titles := titles + [flow.Title()];
    flow.NextStep();
    final := flow.step;
  }
}
