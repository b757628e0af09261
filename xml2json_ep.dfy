/**
 * Model of the request/response shaping in xml2jsonEP.go: the outbound header map built
 * in `x2jProxy`, the caller-facing reply chosen by `x2jEncodeResponse`, and the debug
 * rendering `debugMapStringArrayString`.
 *
 * `http.Header` is a `map<string, seq<string>>`. Keys are taken literally: the
 * canonicalisation `Header.Set` applies (`DNT` becomes `Dnt` there) is not modelled.
 * Creating the request, the TLS transport, the timeout and `httpClient.Do` are network
 * behaviour and are not modelled.
 */
module Xml2JsonEP {
  import opened Wrappers
  import Text

  type Header = map<string, seq<string>>

  /** `standardRequestHeaders`. */
  const StandardRequestHeaders: map<string, string> := map["Accept-Charset" := "utf-8", "DNT" := "1"]

  /** `proxiedHeaders`: the inbound headers that are forwarded, in the order they are copied. */
  const ProxiedHeaders: seq<string> := ["Authorization", "User-Agent", "Ocp-Apim-Subscription-Key"]

  /** The two JSON headers plus the standard headers, each set to a one-element value list. */
  const FixedHeaders: Header := map[
    "Content-Type" := ["application/json"], "Accept" := ["application/json"],
    "Accept-Charset" := ["utf-8"], "DNT" := ["1"]]

  /** Copy, name by name, every listed header the inbound request has, with its value list. */
  function Forwarded(h: Header, inbound: Header, names: seq<string>): Header
  {
    if names == [] then h
    else
      var h' := Forwarded(h, inbound, names[..|names| - 1]);
      var name := names[|names| - 1];
      if name in inbound then h'[name := inbound[name]] else h'
  }

  /** The header map the outbound request carries. */
  function OutboundHeaders(inbound: Header): Header
  {
    Forwarded(FixedHeaders, inbound, ProxiedHeaders)
  }

  /** Lines 123 to 134 of `x2jProxy`: two `Set` calls, the loop over the standard headers, the allow-list loop. */
  method ProxyRequestHeaders(inbound: Header) returns (h: Header)
    ensures h == OutboundHeaders(inbound)
  {
    h := map[];
    h := h["Content-Type" := ["application/json"]];
    h := h["Accept" := ["application/json"]];
    var pending := StandardRequestHeaders.Keys;
    while pending != {}
      invariant pending <= StandardRequestHeaders.Keys
      invariant forall k :: k in h <==> k in FixedHeaders && k !in pending
      invariant forall k :: k in h ==> h[k] == FixedHeaders[k]
      decreases pending
    {
      var key :| key in pending;
      h := h[key := [StandardRequestHeaders[key]]];
      pending := pending - {key};
    }
    assert h.Keys == FixedHeaders.Keys;
    assert h == FixedHeaders;
    for i := 0 to |ProxiedHeaders|
      invariant h == Forwarded(FixedHeaders, inbound, ProxiedHeaders[..i])
    {
      var ph := ProxiedHeaders[i];
      assert ProxiedHeaders[..i + 1][..i] == ProxiedHeaders[..i];
      if ph in inbound {
        h := h[ph := inbound[ph]];
      }
    }
    assert ProxiedHeaders[..|ProxiedHeaders|] == ProxiedHeaders;
  }

  /**
   * Forwarding adds exactly the listed names the inbound request has, with the inbound value
   * lists, and leaves every other entry of `h` as it was.
   */
  lemma {:induction false} ForwardedEntries(h: Header, inbound: Header, names: seq<string>)
    ensures forall k :: k in Forwarded(h, inbound, names) <==> k in h || (k in names && k in inbound)
    ensures forall k :: k in names && k in inbound ==> Forwarded(h, inbound, names)[k] == inbound[k]
    ensures forall k :: k !in names && k in h ==> Forwarded(h, inbound, names)[k] == h[k]
    decreases |names|
  {
    if names != [] {
      var init := names[..|names| - 1];
      ForwardedEntries(h, inbound, init);
      assert forall k :: k in names <==> k in init || k == names[|names| - 1];
    }
  }

  /**
   * The outbound request always asks for and sends JSON, always carries the standard
   * headers, carries each allow-listed header exactly when the caller sent it (with the
   * caller's value list unchanged), and carries nothing else: an inbound `Cookie` is dropped.
   */
  lemma OutboundHeadersPolicy(inbound: Header)
    ensures var h := OutboundHeaders(inbound);
      && "Content-Type" in h && h["Content-Type"] == ["application/json"]
      && "Accept" in h && h["Accept"] == ["application/json"]
      && "Accept-Charset" in h && h["Accept-Charset"] == ["utf-8"]
      && "DNT" in h && h["DNT"] == ["1"]
      && (forall k :: k in ProxiedHeaders && k in inbound ==> k in h && h[k] == inbound[k])
      && (forall k :: k in ProxiedHeaders && k !in inbound ==> k !in h)
      && (forall k :: k in h ==> k in FixedHeaders || k in ProxiedHeaders)
      && "Cookie" !in h
  {
    var h := OutboundHeaders(inbound);
    ForwardedEntries(FixedHeaders, inbound, ProxiedHeaders);
    FixedNotProxied();
    assert forall k :: k in FixedHeaders ==> k in h && h[k] == FixedHeaders[k];
  }

  lemma FixedNotProxied()
    ensures forall k :: k in FixedHeaders ==> k !in ProxiedHeaders
    ensures "Cookie" !in FixedHeaders && "Cookie" !in ProxiedHeaders
  {
  }

  // ---------------------------------------------------------------- x2jEncodeResponse

  /** `x2jProxyData`: the downstream outcome. A nil `Body` and an empty one are both the empty sequence. */
  datatype ProxyData = ProxyData(code: int, status: string, body: seq<bv8>)

  /** The status code and the body written to the caller. */
  datatype Written = Written(code: int, body: string)

  const SuccessBody: string := "{\"success\":true}"

  function ErrorBody(status: string): string
  {
    "{\"error\":\"" + status + "\"}"
  }

  /**
   * `x2jEncodeResponse`: `response` is None when the value is not an `xml2JsonResponse`,
   * in which case the zero value (empty `Status`) is what the error body reports.
   * Failures of `w.Write` and the debug file are not modelled.
   */
  function EncodeResponse(response: Option<ProxyData>): (w: Written)
    ensures w.code == 500 || (response.Some? && |response.value.body| > 0 && w.code == response.value.code)
    ensures w.body == SuccessBody || w.body == ErrorBody(if response.Some? then response.value.status else "")
  {
    match response
    case None => Written(500, ErrorBody(""))
    case Some(v) =>
      if |v.body| == 0 then Written(500, ErrorBody(v.status)) else Written(v.code, SuccessBody)
  }

  /**
   * The caller sees success exactly when the value is a proxy response with a non-empty body,
   * and then the downstream code; otherwise code 500 and the error body with the status text.
   */
  lemma EncodeResponseOutcome(response: Option<ProxyData>)
    ensures var w := EncodeResponse(response);
      (w.body == SuccessBody <==> response.Some? && |response.value.body| > 0)
      && (w.body == SuccessBody ==> w.code == response.value.code)
      && (w.body != SuccessBody ==>
            w.code == 500 && w.body == ErrorBody(if response.Some? then response.value.status else ""))
  {
    assert ErrorBody(if response.Some? then response.value.status else "")[2] == 'e';
    assert SuccessBody[2] == 's';
  }

  /** The downstream body is never echoed and the code does not decide success: only a non-empty body does. */
  lemma EncodeResponseIgnoresBodyAndCode(v: ProxyData, w: ProxyData)
    requires |v.body| > 0 && |w.body| > 0
    ensures EncodeResponse(Some(v)).body == EncodeResponse(Some(w)).body
    ensures v.code == w.code ==> EncodeResponse(Some(v)) == EncodeResponse(Some(w))
  {
  }

  // ---------------------------------------------------------------- debugMapStringArrayString

  /** One value list: a single space before the first value, ` | ` before each later one. */
  function ValueList(values: seq<string>): string
  {
    if values == [] then ""
    else ValueList(values[..|values| - 1]) + (if |values| == 1 then " " else " | ") + values[|values| - 1]
  }

  /** A non-empty value list is the values joined with ` | `, after one leading space. */
  lemma {:induction false} ValueListIsJoin(values: seq<string>)
    ensures ValueList(values) == if values == [] then "" else " " + Text.Join(values, " | ")
    decreases |values|
  {
    if |values| > 1 {
      var init := values[..|values| - 1];
      ValueListIsJoin(init);
      Text.AppendAssociative(" ", Text.Join(init, " | "), " | ");
      Text.AppendAssociative(" ", Text.Join(init, " | ") + " | ", values[|values| - 1]);
    }
  }

  function HeaderLine(key: string, values: seq<string>): string
  {
    key + " [" + ValueList(values) + " ]\n"
  }

  function HeaderLines(m: Header, order: seq<string>): string
    requires forall i :: 0 <= i < |order| ==> order[i] in m
  {
    if order == [] then "" else HeaderLines(m, order[..|order| - 1]) + HeaderLine(order[|order| - 1], m[order[|order| - 1]])
  }

  /** `order` lists every key of `m` exactly once: the order Go's map iteration happens to take. */
  predicate IsKeyOrder(m: Header, order: seq<string>)
  {
    && (forall i :: 0 <= i < |order| ==> order[i] in m)
    && (forall k :: k in m ==> k in order)
    && (forall i, j :: 0 <= i < j < |order| ==> order[i] != order[j])
  }

  /** The rendering: a fixed text for an empty map, otherwise one line per key in iteration order. */
  function DebugHeaderText(m: Header, order: seq<string>): string
    requires IsKeyOrder(m, order)
  {
    if |m| == 0 then "\n no headers \n" else HeaderLines(m, order)
  }

  /** `debugMapStringArrayString`, with the key order as a parameter. */
  method DebugMapStringArrayString(m: Header, order: seq<string>) returns (s: string)
    requires IsKeyOrder(m, order)
    ensures s == DebugHeaderText(m, order)
  {
    if |m| == 0 {
      return "\n no headers \n";
    }
    s := "";
    for i := 0 to |order|
      invariant s == HeaderLines(m, order[..i])
    {
      var key := order[i];
      var values := m[key];
      ghost var before := s;
      s := s + key + " [";
      ghost var open := s;
      var first := true;
      for j := 0 to |values|
        invariant first <==> j == 0
        invariant s == open + ValueList(values[..j])
      {
        assert values[..j + 1][..j] == values[..j];
        ghost var sep := if first then " " else " | ";
        if first {
          s := s + " ";
          first := false;
        } else {
          s := s + " | ";
        }
        s := s + values[j];
        Text.AppendAssociative(open, ValueList(values[..j]), sep);
        Text.AppendAssociative(open, ValueList(values[..j]) + sep, values[j]);
      }
      assert values[..|values|] == values;
      s := s + " ]\n";
      assert order[..i + 1][..i] == order[..i];
      HeaderLineStep(before, key, values);
    }
    assert order[..|order|] == order;
  }

  lemma HeaderLineStep(before: string, key: string, values: seq<string>)
    ensures before + key + " [" + ValueList(values) + " ]\n" == before + HeaderLine(key, values)
  {
  }

  /** An empty map renders as the fixed text; otherwise every key gets its own line, in order. */
  lemma DebugHeaderTextShape(m: Header, order: seq<string>, i: nat)
    requires IsKeyOrder(m, order)
    ensures |m| == 0 ==> DebugHeaderText(m, order) == "\n no headers \n"
    ensures |m| > 0 && i < |order| ==>
      DebugHeaderText(m, order) == HeaderLines(m, order[..i]) + HeaderLine(order[i], m[order[i]]) + HeaderLines(m, order[i + 1..])
  {
    if |m| > 0 && i < |order| {
      HeaderLinesSplit(m, order, i);
    }
  }

  lemma {:induction false} HeaderLinesSplit(m: Header, order: seq<string>, i: nat)
    requires forall j :: 0 <= j < |order| ==> order[j] in m
    requires i < |order|
    ensures HeaderLines(m, order) == HeaderLines(m, order[..i]) + HeaderLine(order[i], m[order[i]]) + HeaderLines(m, order[i + 1..])
  {
    var pre, mid, post := order[..i], [order[i]], order[i + 1..];
    assert order == (pre + mid) + post;
    assert HeaderLines(m, mid) == HeaderLine(order[i], m[order[i]]) by { assert mid[..0] == []; }
    HeaderLinesAppend(m, pre + mid, post);
    HeaderLinesAppend(m, pre, mid);
  }

  /** The rendering of two key lists one after the other is the two renderings one after the other. */
  lemma {:induction false} HeaderLinesAppend(m: Header, a: seq<string>, b: seq<string>)
    requires forall j :: 0 <= j < |a| ==> a[j] in m
    requires forall j :: 0 <= j < |b| ==> b[j] in m
    ensures forall j :: 0 <= j < |a + b| ==> (a + b)[j] in m
    ensures HeaderLines(m, a + b) == HeaderLines(m, a) + HeaderLines(m, b)
    decreases |b|
  {
    if b == [] {
      assert a + b == a;
    } else {
      var b', last := b[..|b| - 1], b[|b| - 1];
      assert (a + b)[..|a + b| - 1] == a + b';
      assert (a + b)[|a + b| - 1] == last;
      HeaderLinesAppend(m, a, b');
      Text.AppendAssociative(HeaderLines(m, a), HeaderLines(m, b'), HeaderLine(last, m[last]));
    }
  }

}
