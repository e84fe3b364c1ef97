/** Targeted collection of the evidence a verification asked for. */
module Telemetry {
  import opened Wrappers
  import opened Domain

  /** What a provider returned for one query: the log lines or series as evidence, or an exception. */
  datatype Reply = Items(found: seq<Evidence>, placeholder: Evidence) | Raised

  const MAX_QUERIES: nat := 3

  predicate Blank(c: char) {
    c in {' ', '\t', '\n', '\r'}
  }

  function Strip(s: string): string {
    if s == "" then ""
    else if Blank(s[0]) then Strip(s[1..])
    else if Blank(s[|s| - 1]) then Strip(s[..|s| - 1])
    else s
  }

  /** A log query keeps one sample item, if any; a metric query keeps every series, or one item saying
      there was none. */
  function FromQuery(query: string, reply: Reply): (es: seq<Evidence>)
    ensures Strip(query) == "" || reply.Raised? ==> es == []
    ensures Strip(query) != "" && reply.Items? && Strip(query)[0] != '{' ==> es != []
    ensures Strip(query) != "" && Strip(query)[0] == '{' ==> |es| <= 1
  {
    var q := Strip(query);
    if q == "" || reply.Raised? then []
    else if q[0] == '{' then (if reply.found == [] then [] else [reply.found[0]])
    else if reply.found == [] then [reply.placeholder]
    else reply.found
  }

  function CollectedUpTo(queries: seq<string>, replies: nat -> Reply, n: nat): seq<Evidence>
    requires n <= |queries|
  {
    if n == 0 then [] else CollectedUpTo(queries, replies, n - 1) + FromQuery(queries[n - 1], replies(n - 1))
  }

  function QueryCount(queries: seq<string>): (n: nat)
    ensures n <= |queries| && n <= MAX_QUERIES
  {
    if |queries| <= MAX_QUERIES then |queries| else MAX_QUERIES
  }

  /** At most the first three queries are asked. */
  function Collected(queries: seq<string>, replies: nat -> Reply): seq<Evidence> {
    CollectedUpTo(queries, replies, QueryCount(queries))
  }

  /** The first three queries, and all of them when there are fewer. */
  lemma CollectedIs(queries: seq<string>, replies: nat -> Reply)
    ensures queries == [] ==> Collected(queries, replies) == []
    ensures |queries| == 1 ==> Collected(queries, replies) == FromQuery(queries[0], replies(0))
    ensures |queries| == 2 ==> Collected(queries, replies) == FromQuery(queries[0], replies(0)) + FromQuery(queries[1], replies(1))
    ensures |queries| >= 3 ==>
              Collected(queries, replies)
              == FromQuery(queries[0], replies(0)) + FromQuery(queries[1], replies(1)) + FromQuery(queries[2], replies(2))
  {
    hide FromQuery;
    if |queries| >= 1 {
      assert CollectedUpTo(queries, replies, 1) == FromQuery(queries[0], replies(0));
    }
    if |queries| >= 2 {
      assert CollectedUpTo(queries, replies, 2) == CollectedUpTo(queries, replies, 1) + FromQuery(queries[1], replies(1));
    }
  }

  /** A query is a log query exactly when its first non-blank character is a brace; what it adds is its sample,
      its series, or the note that there were none. */
  lemma FromQueryIs(query: string, found: seq<Evidence>, note: Evidence, pad: string, text: string)
    requires query == pad + text && (forall i | 0 <= i < |pad| :: pad[i] in {' ', '\t', '\n', '\r'})
    requires text != "" && text[0] !in {' ', '\t', '\n', '\r'}
    ensures FromQuery(query, Items(found, note)) ==
            if text[0] == '{' then (if found == [] then [] else [found[0]]) else if found == [] then [note] else found
    ensures FromQuery(query, Raised) == []
  {
    StripKeepsStart(query, pad, text);
  }

  lemma {:induction false} StripKeepsStart(query: string, pad: string, text: string)
    requires query == pad + text && (forall i | 0 <= i < |pad| :: Blank(pad[i])) && text != "" && !Blank(text[0])
    ensures Strip(query) != "" && Strip(query)[0] == text[0]
    decreases |query|
  {
    var n := |query| - 1;
    if pad != [] {
      assert query[1..] == pad[1..] + text;
      StripKeepsStart(query[1..], pad[1..], text);
    } else if Blank(query[n]) {
      assert query == text && text[..n] != "" && pad + text[..n] == query[..n];
      StripKeepsStart(query[..n], pad, text[..n]);
    }
  }

  /** A blank query is skipped. */
  lemma {:induction false} BlankIsSkipped(query: string, reply: Reply)
    requires forall i | 0 <= i < |query| :: Blank(query[i])
    ensures Strip(query) == "" && FromQuery(query, reply) == []
  {
    if query == "" {
    } else {
      BlankIsSkipped(query[1..], reply);
    }
  }

  /** `collect_additional_telemetry_node`'s loop, with the number of provider calls it makes. */
  method CollectAdditionalTelemetry(queries: seq<string>, replies: nat -> Reply) returns (evidence: seq<Evidence>, calls: nat)
    ensures evidence == Collected(queries, replies)
    ensures calls <= MAX_QUERIES
  {
    evidence, calls := [], 0;
    for k := 0 to QueryCount(queries)
      invariant evidence == CollectedUpTo(queries, replies, k)
      invariant calls <= k
    {
      var q := Strip(queries[k]);
      if q == "" {
        continue;
      }
      var reply := replies(k);
      calls := calls + 1;
      if q[0] == '{' {
        if reply.Items? && reply.found != [] {
          evidence := evidence + [reply.found[0]];
        }
      } else if reply.Items? {
        if reply.found != [] {
          for m := 0 to |reply.found|
            invariant evidence == CollectedUpTo(queries, replies, k) + reply.found[..m]
          {
            evidence := evidence + [reply.found[m]];
          }
          assert reply.found[..|reply.found|] == reply.found;
        } else {
          evidence := evidence + [reply.placeholder];
        }
      }
    }
  }
}
