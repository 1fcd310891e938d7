/**
 * The language-model adapters of the tree builder (`extract_activity_concepts_llm`,
 * `aggregate_activities_llm`, `generate_day_activity_llm`) and the concept-to-category
 * assignment inside its aggregation loop. The model itself is an `Oracle`: for each kind of
 * request, a function from the request's inputs to the reply text, or `None` when the call
 * raised. The prompt wording is not modelled, only what each prompt is built from.
 */
module ConceptOracle {
  import opened Wrappers
  import opened Strings
  import opened LlmUtils
  import opened Segmenter

  /** The replies of the language model and the JSON decoder. */
  datatype Oracle = Oracle(
    extract: (string, seq<Entry>) -> Option<string>,
    aggregate: seq<string> -> Option<string>,
    synthesize: seq<string> -> Option<string>,
    categorize: (seq<string>, seq<string>) -> Option<string>,
    decode: string -> Option<Json>)

  /** An exception that escapes the tree builder. */
  datatype Failure = ModuloByZero

  /** Python `s[:n]`. */
  function Take<T>(s: seq<T>, n: nat): (r: seq<T>)
    ensures |r| <= n && |r| <= |s|
    ensures |s| <= n ==> r == s
    ensures r == s[..|r|]
  {
    if |s| <= n then s else s[..n]
  }

  /** A stripped reply with a leading code fence replaced by the text up to the next fence,
      minus a `json` tag. Unlike `parse_json_response`, the builder does not trim again. */
  function ReplyBody(reply: string): string {
    Unfenced(Strip(reply))
  }

  /** `str(c).lower().strip()` of each truthy element. */
  function ShowItems(items: seq<Json>): (r: seq<string>)
    ensures |r| <= |items|
    ensures forall i :: 0 <= i < |r| ==> IsLowerCase(r[i])
  {
    if |items| == 0 then []
    else
      var x := Strip(Lower(Show(items[0])));
      assert IsLowerCase(x) by {
        LowerIsLowerCase(Show(items[0]));
        StripByKeepsLowerCase(Lower(Show(items[0])), IsSpace);
      }
      (if Truthy(items[0]) then [x] else []) + ShowItems(items[1..])
  }

  /** A JSON array of non-empty, trimmed, lower-case strings is read back as those strings. */
  lemma {:induction false} ShowItemsOfStrings(strs: seq<string>)
    requires forall i :: 0 <= i < |strs| ==> IsTrimmed(strs[i]) && IsLowerCase(strs[i])
    ensures ShowItems(seq(|strs|, i requires 0 <= i < |strs| => JString(strs[i]))) == strs
    decreases |strs|
  {
    var items := seq(|strs|, i requires 0 <= i < |strs| => JString(strs[i]));
    if |strs| > 0 {
      var x := strs[0];
      assert Lower(x) == x;
      StripTrimmed(x);
      assert items[1..] == seq(|strs| - 1, i requires 0 <= i < |strs| - 1 => JString(strs[1..][i]));
      ShowItemsOfStrings(strs[1..]);
      assert [x] + strs[1..] == strs;
    }
  }

  /** `extract_activity_concepts_llm`: up to four concepts from a JSON array reply, else from
      the salvage parser, and the lower-cased activity name alone when the call raised. */
  function ExtractConcepts(o: Oracle, name: string, entries: seq<Entry>): (r: seq<string>)
    ensures |r| <= 4
    ensures forall i :: 0 <= i < |r| ==> IsLowerCase(r[i])
    ensures o.extract(name, entries).None? ==> r == [Lower(name)]
    ensures o.extract(name, entries).Some? ==>
              var body := ReplyBody(o.extract(name, entries).value);
              !o.decode(body).Some? || !o.decode(body).value.JArray? ==>
                forall i :: 0 <= i < |r| ==> IsSalvagedItem(r[i])
  {
    match o.extract(name, entries)
    case None =>
      LowerIsLowerCase(name);
      [Lower(name)]
    case Some(reply) =>
      var body := ReplyBody(reply);
      match o.decode(body)
      case Some(JArray(items)) => ShowItems(Take(items, 4))
      case _ => Take(FallbackList(body), 4)
  }

  /** The number of broader concepts asked for: half the input, at least one. */
  function Target(n: nat): (r: nat)
    ensures 1 <= r
    ensures n >= 2 ==> r < n && r * 2 <= n < r * 2 + 2
  {
    if n / 2 > 1 then n / 2 else 1
  }

  /** `aggregate_activities_llm`: a JSON array reply is used whole; a salvaged reply is cut to
      the target; a failed call falls back to the first `Target` inputs. */
  function AggregateActivities(o: Oracle, acts: seq<string>): (r: seq<string>)
    ensures |acts| <= 1 ==> r == acts
    ensures |acts| > 1 && o.aggregate(acts).None? ==>
              |r| == Target(|acts|) < |acts| && r == acts[..|r|]
    ensures |acts| > 1 && o.aggregate(acts).Some? ==>
              var body := ReplyBody(o.aggregate(acts).value);
              if o.decode(body).Some? && o.decode(body).value.JArray? then
                |r| <= |o.decode(body).value.items|
              else
                |r| <= Target(|acts|) && forall i :: 0 <= i < |r| ==> IsSalvagedItem(r[i])
  {
    if |acts| <= 1 then acts
    else
      var target := Target(|acts|);
      match o.aggregate(acts)
      case None => acts[..target]
      case Some(reply) =>
        var body := ReplyBody(reply);
        match o.decode(body)
        case Some(JArray(items)) => ShowItems(items)
        case _ => Take(FallbackList(body), target)
  }

  /** A reply that decodes to a JSON array of trimmed, lower-case strings is taken whole,
      however many strings it holds, and not cut to the target. */
  lemma AggregateArrayWhole(o: Oracle, acts: seq<string>, strs: seq<string>)
    requires |acts| > 1 && o.aggregate(acts).Some?
    requires o.decode(ReplyBody(o.aggregate(acts).value)) ==
               Some(JArray(seq(|strs|, i requires 0 <= i < |strs| => JString(strs[i]))))
    requires forall i :: 0 <= i < |strs| ==> IsTrimmed(strs[i]) && IsLowerCase(strs[i])
    ensures AggregateActivities(o, acts) == strs
  {
    ShowItemsOfStrings(strs);
  }

  /** Only a JSON array reply can fail to shrink a list of two or more concepts. */
  lemma AggregateShrinksUnlessArray(o: Oracle, acts: seq<string>)
    requires |acts| >= 2
    requires o.aggregate(acts).Some? ==>
               var d := o.decode(ReplyBody(o.aggregate(acts).value)); !(d.Some? && d.value.JArray?)
    ensures |AggregateActivities(o, acts)| < |acts|
  {
  }

  /** The quote characters `strip('"\'')` removes. */
  predicate IsQuote(c: char) {
    c == '"' || c == '\''
  }

  /** `generate_day_activity_llm`: a single concept is its own summary; otherwise the reply,
      trimmed of whitespace and then quotes, lower-cased; ` / `-joined concepts on failure. */
  function GenerateDayActivity(o: Oracle, concepts: seq<string>): (r: string)
    ensures |concepts| == 1 ==> r == concepts[0]
    ensures |concepts| != 1 && o.synthesize(concepts).None? ==> r == Join(concepts, " / ")
    ensures |concepts| != 1 && o.synthesize(concepts).Some? ==>
              IsLowerCase(r) && |r| <= |o.synthesize(concepts).value|
              && (r == [] || (!IsQuote(r[0]) && !IsQuote(r[|r| - 1])))
  {
    if |concepts| == 1 then concepts[0]
    else
      match o.synthesize(concepts)
      case None => Join(concepts, " / ")
      case Some(reply) =>
        var t := StripBy(Strip(reply), IsQuote);
        StripBySpec(Strip(reply), IsQuote);
        LowerIsLowerCase(t);
        Lower(t)
  }

  /** A reply that is already trimmed, lower-case and unquoted is the day's activity as it
      is. */
  lemma GenerateDayActivityClean(o: Oracle, concepts: seq<string>)
    requires |concepts| != 1 && o.synthesize(concepts).Some?
    requires var t := o.synthesize(concepts).value;
             IsTrimmed(t) && IsLowerCase(t) && !IsQuote(t[0]) && !IsQuote(t[|t| - 1])
    ensures GenerateDayActivity(o, concepts) == o.synthesize(concepts).value
  {
    var t := o.synthesize(concepts).value;
    StripTrimmed(t);
    TrimStartSkips([], t, IsQuote);
    assert [] + t == t;
    TrimEndSkips(t, [], IsQuote);
    assert t + [] == t;
    assert Lower(t) == t;
  }

  /** Python `concept_mapping[b]` after the assignment: the ids whose label is `b`, in order. */
  function Children(ids: seq<string>, labels: seq<string>, b: string): (r: seq<string>)
    requires |ids| == |labels|
    ensures |r| <= |ids|
    ensures forall x :: x in r ==> x in ids
  {
    if |ids| == 0 then []
    else (if labels[0] == b then [ids[0]] else []) + Children(ids[1..], labels[1..], b)
  }

  /** `x` is a child of `b` exactly when it is the id of a concept labelled `b`. */
  lemma {:induction false} ChildrenMembers(ids: seq<string>, labels: seq<string>, b: string, x: string)
    requires |ids| == |labels|
    ensures x in Children(ids, labels, b) <==>
              exists j :: 0 <= j < |ids| && ids[j] == x && labels[j] == b
    decreases |ids|
  {
    if |ids| > 0 {
      ChildrenMembers(ids[1..], labels[1..], b, x);
      if x in Children(ids[1..], labels[1..], b) {
        var j :| 0 <= j < |ids| - 1 && ids[1..][j] == x && labels[1..][j] == b;
        assert ids[j + 1] == x && labels[j + 1] == b;
      }
      if exists j :: 0 <= j < |ids| && ids[j] == x && labels[j] == b {
        var j :| 0 <= j < |ids| && ids[j] == x && labels[j] == b;
        if j > 0 {
          assert ids[1..][j - 1] == x && labels[1..][j - 1] == b;
        }
      }
    }
  }

  /** The round-robin fallback: the `i`-th concept goes to broader concept `i mod m`. The
      first `m` concepts take the broader concepts in order, and from then on the choice
      repeats with period `m`. */
  function RoundRobin(n: nat, broader: seq<string>): (r: seq<string>)
    requires |broader| > 0
    ensures |r| == n
    ensures forall i :: 0 <= i < n && i < |broader| ==> r[i] == broader[i]
    ensures forall i, j :: 0 <= i < n && 0 <= j < n && i % |broader| == j % |broader| ==>
              r[i] == r[j]
  {
    ModBelow(|broader|);
    seq(n, i requires 0 <= i < n => broader[i % |broader|])
  }

  /** Below the modulus, `%` is the identity. */
  lemma ModBelow(m: int)
    requires m > 0
    ensures forall i :: 0 <= i < m ==> i % m == i
  {
  }

  /** The round robin uses only broader concepts, and with at least as many concepts as
      broader ones it uses every broader concept. */
  lemma RoundRobinCovers(n: nat, broader: seq<string>)
    requires |broader| > 0
    ensures forall i :: 0 <= i < n ==> RoundRobin(n, broader)[i] in broader
    ensures n >= |broader| ==> forall b :: b in broader ==> b in RoundRobin(n, broader)
  {
    var r := RoundRobin(n, broader);
    ModBelow(|broader|);
    forall i | 0 <= i < n
      ensures r[i] in broader
    {
      var j := i % |broader|;
      assert j % |broader| == j;
      assert r[i] == r[j];
    }
    if n >= |broader| {
      forall b | b in broader
        ensures b in r
      {
        var j :| 0 <= j < |broader| && broader[j] == b;
        assert r[j] == b;
      }
    }
  }

  /** The category a decoded mapping gives the `i`-th concept: the looked-up value when it is
      one of the broader concepts, otherwise the round-robin choice. */
  function Pick(found: Option<Json>, broader: seq<string>, i: nat): (r: string)
    requires |broader| > 0
    ensures r in broader
    ensures found.Some? && found.value.JString? && found.value.s in broader ==> r == found.value.s
    ensures !(found.Some? && found.value.JString? && found.value.s in broader) ==>
              r == broader[i % |broader|]
  {
    match found
    case Some(JString(s)) => if s in broader then s else broader[i % |broader|]
    case _ => broader[i % |broader|]
  }

  /** The category of every current concept (build_activity_tree, mapping step). A reply that is
      not a JSON object, or a failed call, falls back to round robin; with no broader concepts
      the `i % 0` of the fallback raises. */
  function AssignCategories(o: Oracle, current: seq<string>, broader: seq<string>)
    : (r: Result<seq<string>, Failure>)
    ensures r.Err? <==> |broader| == 0 && |current| > 0
    ensures r.Ok? ==> |r.value| == |current|
  {
    if |broader| == 0 then
      if |current| == 0 then Ok([]) else Err(ModuloByZero)
    else
      var fallback := RoundRobin(|current|, broader);
      match o.categorize(current, broader)
      case None => Ok(fallback)
      case Some(reply) =>
        match o.decode(ReplyBody(reply))
        case Some(JObject(fields)) =>
          Ok(seq(|current|, i requires 0 <= i < |current| =>
                   Pick(Lookup(fields, Lower(current[i])), broader, i)))
        case _ => Ok(fallback)
  }

  /** Every category is one of the broader concepts. When the call fails, or its reply does
      not decode to a JSON object, the categories go round robin through the broader
      concepts; when it decodes to an object, each concept takes the value found under its
      lower-cased name if that is a broader concept, and its round-robin choice otherwise. */
  lemma AssignCategoriesLabels(o: Oracle, current: seq<string>, broader: seq<string>)
    requires AssignCategories(o, current, broader).Ok?
    ensures var r := AssignCategories(o, current, broader).value;
            var reply := o.categorize(current, broader);
            var decoded := if reply.Some? then o.decode(ReplyBody(reply.value)) else None;
            && (forall i :: 0 <= i < |current| ==> r[i] in broader)
            && (|broader| > 0 && reply.None? ==>
                  forall i :: 0 <= i < |current| ==> r[i] == broader[i % |broader|])
            && (|broader| > 0 && !(decoded.Some? && decoded.value.JObject?) ==>
                  r == RoundRobin(|current|, broader))
            && (|broader| > 0 && decoded.Some? && decoded.value.JObject? ==>
                  forall i :: 0 <= i < |current| ==>
                    r[i] == Pick(Lookup(decoded.value.fields, Lower(current[i])), broader, i))
  {
    if |broader| > 0 {
      RoundRobinCovers(|current|, broader);
    }
  }

  // ---------------------------------------------------------------------------------
  // Each current id lands in exactly one broader concept's children.

  /** The children of all keys, counted with multiplicity. */
  function Gathered(ids: seq<string>, labels: seq<string>, keys: seq<string>): multiset<string>
    requires |ids| == |labels|
  {
    if |keys| == 0 then multiset{}
    else multiset(Children(ids, labels, keys[0])) + Gathered(ids, labels, keys[1..])
  }

  /** How often label `l` is one of the keys, as a multiset of `x`. */
  lemma {:induction false} GatheredOne(x: string, l: string, keys: seq<string>)
    requires l in keys
    requires forall i, j :: 0 <= i < j < |keys| ==> keys[i] != keys[j]
    ensures Gathered([x], [l], keys) == multiset{x}
    decreases |keys|
  {
    if keys[0] == l {
      GatheredNone(x, l, keys[1..]);
    } else {
      GatheredOne(x, l, keys[1..]);
    }
  }

  lemma {:induction false} GatheredNone(x: string, l: string, keys: seq<string>)
    requires l !in keys
    ensures Gathered([x], [l], keys) == multiset{}
    decreases |keys|
  {
    if |keys| > 0 {
      GatheredNone(x, l, keys[1..]);
    }
  }

  /** Gathering splits over the first id. */
  lemma {:induction false} GatheredCons(ids: seq<string>, labels: seq<string>, keys: seq<string>)
    requires |ids| == |labels| > 0
    ensures Gathered(ids, labels, keys) ==
              Gathered([ids[0]], [labels[0]], keys) + Gathered(ids[1..], labels[1..], keys)
    decreases |keys|
  {
    if |keys| > 0 {
      GatheredCons(ids, labels, keys[1..]);
    }
  }

  /** When every label is one of the pairwise distinct keys, the keys' children hold every id
      exactly as often as it occurs. */
  lemma {:induction false} ChildrenPartition(ids: seq<string>, labels: seq<string>, keys: seq<string>)
    requires |ids| == |labels|
    requires forall i :: 0 <= i < |labels| ==> labels[i] in keys
    requires forall i, j :: 0 <= i < j < |keys| ==> keys[i] != keys[j]
    ensures Gathered(ids, labels, keys) == multiset(ids)
    decreases |ids|
  {
    if |ids| == 0 {
      GatheredEmpty(keys);
    } else {
      GatheredCons(ids, labels, keys);
      GatheredOne(ids[0], labels[0], keys);
      TailLabels(labels, keys);
      ChildrenPartition(ids[1..], labels[1..], keys);
      MultisetCons(ids);
    }
  }

  /** Dropping the first label keeps every label among the keys. */
  lemma TailLabels(labels: seq<string>, keys: seq<string>)
    requires |labels| > 0 && forall i :: 0 <= i < |labels| ==> labels[i] in keys
    ensures forall i :: 0 <= i < |labels[1..]| ==> labels[1..][i] in keys
  {
    forall i | 0 <= i < |labels[1..]| ensures labels[1..][i] in keys {
      assert labels[1..][i] == labels[i + 1];
    }
  }

  /** A non-empty sequence's multiset is its head plus its tail's. */
  lemma MultisetCons(s: seq<string>)
    requires |s| > 0
    ensures multiset(s) == multiset{s[0]} + multiset(s[1..])
  {
    assert s == [s[0]] + s[1..];
  }

  lemma {:induction false} GatheredEmpty(keys: seq<string>)
    ensures Gathered([], [], keys) == multiset{}
    decreases |keys|
  {
    if |keys| > 0 {
      GatheredEmpty(keys[1..]);
    }
  }

  /** The mapping step puts each current id under exactly one broader concept. */
  lemma AssignmentPartitions(o: Oracle, current: seq<string>, broader: seq<string>, ids: seq<string>)
    requires |ids| == |current|
    requires AssignCategories(o, current, broader).Ok?
    ensures Gathered(ids, AssignCategories(o, current, broader).value, Distinct(broader)) == multiset(ids)
  {
    AssignCategoriesLabels(o, current, broader);
    ChildrenPartition(ids, AssignCategories(o, current, broader).value, Distinct(broader));
  }
}
