/**
 * Post-processing of language-model replies: removing a Markdown code fence,
 * dispatching to a salvage parser when JSON decoding fails, and the comma/newline
 * salvage parser for list replies. Decoding JSON itself (RFC 8259) is abstract:
 * callers pass a `decode` function whose `None` stands for a `JSONDecodeError`.
 */
module LlmUtils {
  import opened Wrappers
  import opened Strings

  /** A decoded JSON value. Numbers, booleans and null are `JScalar`, carrying what Python's
      `str()` prints for them and whether they are truthy; objects keep their key order. */
  datatype Json =
    | JString(s: string)
    | JArray(items: seq<Json>)
    | JObject(fields: seq<(string, Json)>)
    | JScalar(text: string, truthy: bool)

  /** Python truthiness (`if c:`) of a decoded value. */
  predicate Truthy(j: Json) {
    match j
    case JString(s) => s != ""
    case JArray(items) => items != []
    case JObject(fields) => fields != []
    case JScalar(_, t) => t
  }

  /** Python `repr` of a decoded value, as it appears inside a container (quote escaping is not modelled). */
  function Repr(j: Json): string {
    match j
    case JString(s) => "'" + s + "'"
    case JScalar(t, _) => t
    case JArray(items) =>
      "[" + Join(seq(|items|, i requires 0 <= i < |items| => Repr(items[i])), ", ") + "]"
    case JObject(fields) =>
      "{" + Join(seq(|fields|, i requires 0 <= i < |fields| =>
                   assert fields[i].1 < fields[i];
                   "'" + fields[i].0 + "': " + Repr(fields[i].1)), ", ") + "}"
  }

  /** Python `str(c)` of a decoded value. */
  function Show(j: Json): string {
    match j
    case JString(s) => s
    case JScalar(t, _) => t
    case _ => Repr(j)
  }

  /** Python `dict.get(key)` on a decoded object: with repeated keys the last one wins. */
  function Lookup(fields: seq<(string, Json)>, key: string): (r: Option<Json>)
    ensures r.None? <==> forall i :: 0 <= i < |fields| ==> fields[i].0 != key
    ensures r.Some? ==> exists i :: 0 <= i < |fields| && fields[i] == (key, r.value)
  {
    if |fields| == 0 then None
    else if fields[|fields| - 1].0 == key then Some(fields[|fields| - 1].1)
    else Lookup(fields[..|fields| - 1], key)
  }

  const Fence: string := "```"

  /** A fence body that no longer contains a fence. */
  predicate NoFence(s: string) {
    forall k: nat :: k <= |s| ==> !OccursAt(s, Fence, k)
  }

  /** Python `s[4:] if s.startswith("json") else s`: drops a language tag. */
  function DropJsonTag(s: string): string {
    if StartsWith(s, "json") then s[4..] else s
  }

  /** The text between the first two fences (Python `s.split("```")[1]`) without a leading `json` tag. */
  function FenceBody(s: string): (r: string)
    requires StartsWith(s, Fence)
    ensures exists j :: 3 <= j <= |s| && (j == |s| || OccursAt(s, Fence, j))
                        && NoFence(s[3..j]) && r == DropJsonTag(s[3..j])
  {
    var j := Find(s, Fence, 3);
    NoFenceBefore(s, j);
    DropJsonTag(s[3..j])
  }

  /** An occurrence inside a slice is an occurrence in the whole string. */
  lemma OccursInSlice(s: string, a: nat, b: nat, pat: string, k: nat)
    requires a <= b <= |s|
    requires OccursAt(s[a..b], pat, k)
    ensures OccursAt(s, pat, a + k)
  {
    var l := s[a..b][k..k + |pat|];
    var r := s[a + k..a + k + |pat|];
    forall t | 0 <= t < |pat|
      ensures l[t] == r[t]
    {
      assert l[t] == s[a + k + t];
    }
    assert l == r;
  }

  lemma NoFenceBefore(s: string, j: nat)
    requires 3 <= j <= |s|
    requires forall k: nat :: 3 <= k < j ==> !OccursAt(s, Fence, k)
    ensures NoFence(s[3..j])
  {
    forall k: nat | k <= j - 3
      ensures !OccursAt(s[3..j], Fence, k)
    {
      if OccursAt(s[3..j], Fence, k) {
        OccursInSlice(s, 3, j, Fence, k);
      }
    }
  }

  /** The reply as the tree builder hands it to the JSON decoder: the body of a leading fence,
      with no trimming after the fence is removed. */
  function Unfenced(response: string): string {
    if StartsWith(response, Fence) then FenceBody(response) else response
  }

  /** The text `parse_json_response` hands to the decoder: trimmed, and when fenced,
      the trimmed fence body without its `json` tag. */
  function CleanResponse(response: string): (r: string)
    ensures !StartsWith(Strip(response), Fence) ==> r == Strip(response)
    ensures StartsWith(Strip(response), Fence) ==>
              exists j :: 3 <= j <= |Strip(response)|
                          && (j == |Strip(response)| || OccursAt(Strip(response), Fence, j))
                          && NoFence(Strip(response)[3..j])
                          && r == Strip(DropJsonTag(Strip(response)[3..j]))
  {
    var s := Strip(response);
    if StartsWith(s, Fence) then Strip(FenceBody(s)) else s
  }

  /** `Find` returns the first occurrence. */
  lemma FindFirst(s: string, pat: string, i: nat, e: nat)
    requires |pat| > 0 && i <= e < |s|
    requires OccursAt(s, pat, e)
    requires forall k: nat :: i <= k < e ==> !OccursAt(s, pat, k)
    ensures Find(s, pat, i) == e
  {
  }

  /** In a fenced block tagged `json`, the closing fence is the first one after the opening. */
  lemma ClosingFence(body: string)
    requires NoFence(body)
    ensures var s := "```json\n" + body + "\n```";
            Find(s, Fence, 3) == 9 + |body|
  {
    var s := "```json\n" + body + "\n```";
    var e := 9 + |body|;
    assert s[e..e + 3] == Fence;
    forall k: nat | 3 <= k < e
      ensures !OccursAt(s, Fence, k)
    {
      if k < 8 {
        assert s[k] != '`';
        assert s[k..k + 3][0] == s[k];
      } else if k + 3 <= 8 + |body| {
        assert s[k..k + 3] == body[k - 8..k - 8 + 3];
        assert !OccursAt(body, Fence, k - 8);
      } else {
        assert s[8 + |body|] == '\n';
        assert s[k..k + 3][8 + |body| - k] == s[8 + |body|];
      }
    }
    FindFirst(s, Fence, 3, e);
  }

  lemma FencedIsTrimmed(body: string)
    requires IsTrimmed(body)
    ensures var s := "```json\n" + body + "\n```"; Strip(s) == s && StartsWith(s, Fence)
  {
    var s := "```json\n" + body + "\n```";
    assert IsTrimmed(s);
    StripTrimmed(s);
  }

  lemma FencedBody(body: string)
    requires NoFence(body)
    ensures var s := "```json\n" + body + "\n```";
            StartsWith(s, Fence) && FenceBody(s) == "\n" + body + "\n"
  {
    var s := "```json\n" + body + "\n```";
    ClosingFence(body);
    var e := 9 + |body|;
    assert FenceBody(s) == DropJsonTag(s[3..e]);
    assert s[3..e] == "json\n" + body + "\n";
  }

  /** A JSON text wrapped in a fenced block tagged `json` comes back out unchanged. */
  lemma FencedRoundTrip(body: string)
    requires IsTrimmed(body) && NoFence(body)
    ensures CleanResponse("```json\n" + body + "\n```") == body
  {
    FencedIsTrimmed(body);
    FencedBody(body);
    StripPadded("\n", body, "\n");
  }

  /** How `parse_json_response` ended: the decoder accepted the text, the salvage parser
      produced a value, or the decoding error escaped to the caller. */
  datatype Parsed<T> = Decoded(json: Json) | Salvaged(value: T) | Raised

  /** `parse_json_response`: decode the cleaned reply; on a decoding error apply the salvage
      parser to that same cleaned text, or re-raise when there is none. */
  function ParseJsonResponse<T>(response: string, decode: string -> Option<Json>,
                                fallback: Option<string -> T>): (r: Parsed<T>)
    ensures r.Decoded? <==> decode(CleanResponse(response)).Some?
    ensures r.Decoded? ==> r.json == decode(CleanResponse(response)).value
    ensures r.Salvaged? <==> decode(CleanResponse(response)).None? && fallback.Some?
    ensures r.Salvaged? ==> r.value == fallback.value(CleanResponse(response))
    ensures r.Raised? <==> decode(CleanResponse(response)).None? && fallback.None?
  {
    var text := CleanResponse(response);
    match decode(text)
    case Some(j) => Decoded(j)
    case None =>
      match fallback
      case Some(f) => Salvaged(f(text))
      case None => Raised
  }

  /** `parse_mapping_response`: a reply that does not decode becomes the empty object. */
  function ParseMappingResponse(response: string, decode: string -> Option<Json>): (r: Json)
    ensures decode(CleanResponse(response)).None? ==> r == JObject([])
    ensures decode(CleanResponse(response)).Some? ==> r == decode(CleanResponse(response)).value
  {
    match ParseJsonResponse(response, decode, Some((_: string) => JObject([])))
    case Decoded(j) => j
    case Salvaged(v) => v
    case Raised => JObject([])
  }

  /** The quote and bracket characters the salvage parser strips from each item. */
  predicate IsNoise(c: char) {
    c == '"' || c == '\'' || c == '[' || c == ']'
  }

  /** One item of the salvage parser before lower-casing: `item.strip().strip('"\'[]')`. */
  function CleanItem(piece: string): (r: string)
    ensures r == [] || (!IsNoise(r[0]) && !IsNoise(r[|r| - 1]))
  {
    StripBySpec(Strip(piece), IsNoise);
    StripBy(Strip(piece), IsNoise)
  }

  /** Stripping only removes characters, so it never introduces one. */
  lemma CleanItemChars(piece: string, c: char)
    requires c in CleanItem(piece)
    ensures c in piece
  {
    StripByChars(Strip(piece), IsNoise, c);
    StripByChars(piece, IsSpace, c);
  }

  /** Lower-casing introduces no character other than a lower-case letter. */
  lemma LowerKeepsOut(x: string, c: char)
    requires c !in x && !('a' <= c <= 'z')
    ensures c !in Lower(x)
  {
    forall i | 0 <= i < |x| ensures Lower(x)[i] != c {
      assert x[i] != c;
    }
  }

  /** `a` can be obtained from `b` by deleting elements. */
  predicate IsSubsequence<T(==)>(a: seq<T>, b: seq<T>)
    decreases |b|
  {
    if a == [] then true
    else if b == [] then false
    else if a[0] == b[0] then IsSubsequence(a[1..], b[1..])
    else IsSubsequence(a, b[1..])
  }

  lemma {:induction false} SubsequenceSkip<T>(a: seq<T>, b: seq<T>)
    requires b != [] && IsSubsequence(a, b[1..])
    ensures IsSubsequence(a, b)
    decreases |b|, 0
  {
    if a != [] && a[0] == b[0] {
      SubsequenceTail(a, b[1..]);
    }
  }

  lemma {:induction false} SubsequenceTail<T>(a: seq<T>, b: seq<T>)
    requires a != [] && IsSubsequence(a, b)
    ensures IsSubsequence(a[1..], b)
    decreases |b|, 1
  {
    if a[0] != b[0] {
      SubsequenceTail(a, b[1..]);
      SubsequenceSkip(a[1..], b);
    } else {
      SubsequenceSkip(a[1..], b);
    }
  }

  /** Every piece cleaned and lower-cased, empty ones included. */
  function CleanedPieces(pieces: seq<string>): (r: seq<string>)
    ensures |r| == |pieces|
    ensures forall i :: 0 <= i < |pieces| ==> r[i] == Lower(CleanItem(pieces[i]))
  {
    seq(|pieces|, i requires 0 <= i < |pieces| => Lower(CleanItem(pieces[i])))
  }

  /** A well-formed salvaged item: non-empty, lower case, free of separators, and with no
      quote or bracket at either end. */
  predicate IsSalvagedItem(item: string) {
    && item != []
    && IsLowerCase(item)
    && ',' !in item && '\n' !in item
    && !IsNoise(item[0]) && !IsNoise(item[|item| - 1])
  }

  /** The list comprehension of the salvage parser: clean, drop empty, lower-case. */
  function KeepItems(pieces: seq<string>): seq<string> {
    if |pieces| == 0 then []
    else
      var x := CleanItem(pieces[0]);
      (if x == [] then [] else [Lower(x)]) + KeepItems(pieces[1..])
  }

  lemma CleanLowerOmits(piece: string, c: char)
    requires c !in piece && !('a' <= c <= 'z')
    ensures c !in Lower(CleanItem(piece))
  {
    var x := CleanItem(piece);
    if c in x {
      CleanItemChars(piece, c);
    }
    LowerKeepsOut(x, c);
  }

  lemma CleanLowerEnds(piece: string)
    requires CleanItem(piece) != []
    ensures var y := Lower(CleanItem(piece)); !IsNoise(y[0]) && !IsNoise(y[|y| - 1])
  {
    var x := CleanItem(piece);
    var y := Lower(x);
    assert y[0] == LowerChar(x[0]);
    assert y[|y| - 1] == LowerChar(x[|x| - 1]);
  }

  lemma SalvagedItem(piece: string)
    requires ',' !in piece && '\n' !in piece
    requires CleanItem(piece) != []
    ensures IsSalvagedItem(Lower(CleanItem(piece)))
  {
    LowerIsLowerCase(CleanItem(piece));
    CleanLowerOmits(piece, ',');
    CleanLowerOmits(piece, '\n');
    CleanLowerEnds(piece);
  }

  lemma {:induction false} KeepItemsWellFormed(pieces: seq<string>)
    requires forall i :: 0 <= i < |pieces| ==> ',' !in pieces[i] && '\n' !in pieces[i]
    ensures forall i :: 0 <= i < |KeepItems(pieces)| ==> IsSalvagedItem(KeepItems(pieces)[i])
    decreases |pieces|
  {
    if |pieces| > 0 {
      var r := KeepItems(pieces);
      var rest := KeepItems(pieces[1..]);
      KeepItemsWellFormed(pieces[1..]);
      var x := CleanItem(pieces[0]);
      if x == [] {
        assert r == rest;
      } else {
        SalvagedItem(pieces[0]);
        assert r == [Lower(x)] + rest;
        forall i | 0 <= i < |r| ensures IsSalvagedItem(r[i]) {
          if i > 0 {
            assert r[i] == rest[i - 1];
          }
        }
      }
    }
  }

  lemma {:induction false} KeepItemsInOrder(pieces: seq<string>)
    ensures IsSubsequence(KeepItems(pieces), CleanedPieces(pieces))
    decreases |pieces|
  {
    if |pieces| > 0 {
      KeepItemsInOrder(pieces[1..]);
      var c := CleanedPieces(pieces);
      assert c[1..] == CleanedPieces(pieces[1..]);
      var rest := KeepItems(pieces[1..]);
      if CleanItem(pieces[0]) == [] {
        assert KeepItems(pieces) == rest;
        SubsequenceSkip(rest, c);
      } else {
        var r := KeepItems(pieces);
        assert r == [Lower(CleanItem(pieces[0]))] + rest;
        assert r[1..] == rest;
      }
    }
  }

  lemma {:induction false} JoinedCharsFrom(parts: seq<string>, sep: string, c: char)
    requires c in Join(parts, sep)
    ensures c in sep || exists i :: 0 <= i < |parts| && c in parts[i]
    decreases |parts|
  {
    if |parts| > 1 {
      if c !in parts[0] && c !in sep {
        JoinedCharsFrom(parts[1..], sep, c);
        var i :| 0 <= i < |parts[1..]| && c in parts[1..][i];
        assert c in parts[i + 1];
      }
    }
  }

  lemma {:induction false} JoinedPartsOccur(parts: seq<string>, sep: string, i: nat)
    requires i < |parts|
    ensures forall c :: c in parts[i] ==> c in Join(parts, sep)
    decreases |parts|
  {
    if |parts| > 1 && i > 0 {
      JoinedPartsOccur(parts[1..], sep, i - 1);
    }
  }

  /** The comma/newline pieces of a reply, as the salvage parser splits it. */
  function Pieces(response: string): (r: seq<string>)
    ensures Join(r, ",") == Replace(response, '\n', ',')
    ensures forall i :: 0 <= i < |r| ==> ',' !in r[i] && '\n' !in r[i]
  {
    var flat := Replace(response, '\n', ',');
    var r := Split(flat, ',');
    forall i | 0 <= i < |r|
      ensures '\n' !in r[i]
    {
      JoinedPartsOccur(r, ",", i);
    }
    r
  }

  /** `parse_list_response_fallback`: split on commas and newlines, clean each piece,
      drop the empty ones. */
  function FallbackList(response: string): (r: seq<string>)
    ensures forall i :: 0 <= i < |r| ==> IsSalvagedItem(r[i])
    ensures IsSubsequence(r, CleanedPieces(Pieces(response)))
  {
    var pieces := Pieces(response);
    KeepItemsWellFormed(pieces);
    KeepItemsInOrder(pieces);
    KeepItems(pieces)
  }

  lemma CleanItemOfClean(x: string)
    requires IsSalvagedItem(x) && IsTrimmed(x)
    ensures CleanItem(x) == x
  {
    StripTrimmed(x);
    TrimStartSkips([], x, IsNoise);
    assert [] + x == x;
    TrimEndSkips(x, [], IsNoise);
    assert x + [] == x;
  }

  lemma {:induction false} KeepClean(items: seq<string>)
    requires forall i :: 0 <= i < |items| ==> IsSalvagedItem(items[i]) && IsTrimmed(items[i])
    ensures KeepItems(items) == items
    decreases |items|
  {
    if |items| > 0 {
      var x := items[0];
      CleanItemOfClean(x);
      assert Lower(x) == x;
      KeepClean(items[1..]);
      assert [x] + items[1..] == items;
    }
  }

  lemma ReplaceAbsent(s: string, a: char, b: char)
    requires a !in s
    ensures Replace(s, a, b) == s
  {
  }

  /** A comma-separated list of clean lower-case items is read back item for item. */
  lemma FallbackRoundTrip(items: seq<string>)
    requires |items| >= 1
    requires forall i :: 0 <= i < |items| ==> IsSalvagedItem(items[i]) && IsTrimmed(items[i])
    ensures FallbackList(Join(items, ",")) == items
  {
    var text := Join(items, ",");
    if '\n' in text {
      JoinedCharsFrom(items, ",", '\n');
    }
    ReplaceAbsent(text, '\n', ',');
    SplitJoin(items, ',');
    assert Pieces(text) == items;
    KeepClean(items);
  }
}
