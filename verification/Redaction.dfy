/** Redacting sensitive fields from logged payloads (server/log.go). */
module Redaction {
  import opened Orders
  import opened Texts

  predicate StartsWith(s: string, prefix: string) {
    prefix <= s
  }

  /** The token is the field's name with a separator after it, and more. */
  predicate Matches(token: string, field: string) {
    StartsWith(token, field + ":") || StartsWith(token, field + "=")
  }

  function Masked(field: string): string {
    field + ":\"********\""
  }

  /** Trying the fields in the given order, each match replacing what an earlier one put: the last
      match stays. */
  function RedactToken(token: string, order: seq<string>): string {
    if order == [] then token
    else if Matches(token, order[|order| - 1]) then Masked(order[|order| - 1])
    else RedactToken(token, order[..|order| - 1])
  }

  /** The field set is iterated over afresh for each token, so each token has an order of its own. */
  ghost predicate VisitOrders(orders: seq<seq<string>>, n: nat, sensitive: set<string>) {
    |orders| == n && forall i :: 0 <= i < n ==> VisitOrder(orders[i], sensitive)
  }

  function RedactTokens(tokens: seq<string>, orders: seq<seq<string>>): (r: seq<string>)
    requires |tokens| == |orders|
    ensures |r| == |tokens|
  {
    seq(|tokens|, i requires 0 <= i < |tokens| => RedactToken(tokens[i], orders[i]))
  }

  function Redact(data: string, orders: seq<seq<string>>): string
    requires |orders| == |Fields(data)|
  {
    Join(RedactTokens(Fields(data), orders), ' ')
  }

  method RedactSensitive(data: string, sensitive: set<string>, orders: seq<seq<string>>) returns (text: string)
    requires VisitOrders(orders, |Fields(data)|, sensitive)
    ensures text == Redact(data, orders)
  {
    var fields := Fields(data);
    var parts := new string[|fields|](i requires 0 <= i < |fields| => fields[i]);
    var i := 0;
    while i < parts.Length
      invariant i <= parts.Length
      invariant forall j :: 0 <= j < i ==> parts[j] == RedactToken(fields[j], orders[j])
      invariant forall j :: i <= j < parts.Length ==> parts[j] == fields[j]
    {
      var part, order := parts[i], orders[i];
      var f := 0;
      while f < |order|
        invariant f <= |order|
        invariant forall j :: 0 <= j < i ==> parts[j] == RedactToken(fields[j], orders[j])
        invariant parts[i] == RedactToken(part, order[..f])
        invariant forall j :: i < j < parts.Length ==> parts[j] == fields[j]
      {
        assert order[..f + 1][..f] == order[..f];
        var field := order[f];
        if StartsWith(part, field + ":") || StartsWith(part, field + "=") {
          parts[i] := field + ":\"********\"";
        }
        f := f + 1;
      }
      assert order[..f] == order;
      i := i + 1;
    }
    assert parts[..] == RedactTokens(fields, orders);
    text := Join(parts[..], ' ');
  }

  // ---- When the order does not matter ----

  /** A listed field that a token can hold contains another listed field and its separator. */
  predicate Shadows(f: string, g: string) {
    Spaceless(g) && (f + ":" <= g || f + "=" <= g)
  }

  ghost predicate Unambiguous(sensitive: set<string>) {
    forall f, g :: f in sensitive && g in sensitive ==> !Shadows(f, g)
  }

  /** Names without ':' and '=' are never ambiguous. */
  lemma PlainNamesUnambiguous(sensitive: set<string>)
    requires forall f :: f in sensitive ==> ':' !in f && '=' !in f
    ensures Unambiguous(sensitive)
  {
    forall f, g | f in sensitive && g in sensitive ensures !Shadows(f, g) {
      if Matches(g, f) { MatchesPrefix(g, f); }
    }
  }

  lemma MatchesPrefix(token: string, f: string)
    requires Matches(token, f)
    ensures |f| < |token| && f == token[..|f|]
    ensures token[|f|] == ':' || token[|f|] == '='
  {
  }

  lemma ShorterShadows(token: string, f: string, g: string)
    requires Token(token) && Matches(token, f) && Matches(token, g) && |f| < |g|
    ensures Shadows(f, g)
  {
    MatchesPrefix(token, f);
    MatchesPrefix(token, g);
    assert g[..|f| + 1] == token[..|f| + 1];
    assert Spaceless(g) by { assert forall i :: 0 <= i < |g| ==> g[i] == token[i]; }
  }

  lemma OneMatch(sensitive: set<string>, token: string, f: string, g: string)
    requires Unambiguous(sensitive) && f in sensitive && g in sensitive
    requires Token(token) && Matches(token, f) && Matches(token, g)
    ensures f == g
  {
    MatchesPrefix(token, f);
    MatchesPrefix(token, g);
    if |f| < |g| { ShorterShadows(token, f, g); } else if |g| < |f| { ShorterShadows(token, g, f); }
  }

  /** Whatever the field set: of the fields that a token begins with, the one tried last gives the mask. */
  lemma LastMatchStays(token: string, front: seq<string>, f: string)
    ensures RedactToken(token, []) == token
    ensures RedactToken(token, front + [f])
         == if f + ":" <= token || f + "=" <= token then f + ":\"********\"" else RedactToken(token, front)
  {
    assert (front + [f])[..|front|] == front;
  }

  lemma {:induction false} RedactTokenIs(token: string, order: seq<string>)
    ensures (forall i :: 0 <= i < |order| ==> !Matches(token, order[i])) ==> RedactToken(token, order) == token
    ensures (exists i :: 0 <= i < |order| && Matches(token, order[i])) ==>
              exists f :: f in order && Matches(token, f) && RedactToken(token, order) == Masked(f)
  {
    if order != [] {
      var n := |order| - 1;
      RedactTokenIs(token, order[..n]);
      assert order[n] in order;
      if !Matches(token, order[n]) && exists i :: 0 <= i < |order| && Matches(token, order[i]) {
        var i :| 0 <= i < |order| && Matches(token, order[i]);
        assert Matches(token, order[..n][i]);
        var f :| f in order[..n] && Matches(token, f) && RedactToken(token, order[..n]) == Masked(f);
        assert f in order;
      }
    }
  }

  /** What redaction does to a token: a token that begins with a listed field and a separator becomes
      that field's mask, and every other token stays. */
  ghost predicate RedactedTo(sensitive: set<string>, token: string, redacted: string) {
    && (forall f :: f in sensitive && (f + ":" <= token || f + "=" <= token) ==> redacted == f + ":\"********\"")
    && ((forall f :: f in sensitive ==> !(f + ":" <= token) && !(f + "=" <= token)) ==> redacted == token)
  }

  lemma RedactsExactly(sensitive: set<string>, token: string, order: seq<string>)
    requires Unambiguous(sensitive) && VisitOrder(order, sensitive) && Token(token)
    ensures RedactedTo(sensitive, token, RedactToken(token, order))
  {
    RedactTokenIs(token, order);
    forall f | f in sensitive && (f + ":" <= token || f + "=" <= token)
      ensures RedactToken(token, order) == f + ":\"********\""
    {
      var i :| 0 <= i < |order| && order[i] == f;
      assert Matches(token, order[i]);
      var g :| g in order && Matches(token, g) && RedactToken(token, order) == Masked(g);
      OneMatch(sensitive, token, f, g);
    }
    if forall f :: f in sensitive ==> !(f + ":" <= token) && !(f + "=" <= token) {
      assert forall i :: 0 <= i < |order| ==> order[i] in sensitive;
    }
  }

  /** The tokens of the redacted text are the tokens of the data, each redacted: whatever follows a listed field
      and a separator is gone, and a token without that stays. */
  lemma RedactionIs(sensitive: set<string>, data: string, orders: seq<seq<string>>)
    requires Unambiguous(sensitive) && VisitOrders(orders, |Fields(data)|, sensitive)
    ensures var before, after := Fields(data), Fields(Redact(data, orders));
            |after| == |before| && forall i :: 0 <= i < |before| ==> RedactedTo(sensitive, before[i], after[i])
  {
    var before := Fields(data);
    FieldsAreTokens(data, "");
    var after := RedactTokens(before, orders);
    forall i | 0 <= i < |before| ensures Token(after[i]) && RedactedTo(sensitive, before[i], after[i]) {
      RedactsExactly(sensitive, before[i], orders[i]);
      RedactTokenIs(before[i], orders[i]);
      if f :| f in sensitive && Matches(before[i], f) {
        MaskIsToken(before[i], f);
      }
    }
    FieldsJoined(after);
  }

  /** For one token: a listed field with either separator and anything after it gives the field's mask. */
  lemma FieldRedacted(sensitive: set<string>, order: seq<string>, f: string, rest: string)
    requires VisitOrder(order, sensitive) && f in sensitive
    requires forall f, g :: f in sensitive && g in sensitive && Spaceless(g) ==> !(f + ":" <= g) && !(f + "=" <= g)
    requires Spaceless(f) && Spaceless(rest)
    ensures RedactToken(f + ":" + rest, order) == f + ":\"********\""
    ensures RedactToken(f + "=" + rest, order) == f + ":\"********\""
  {
    assert Unambiguous(sensitive);
    assert f + ":" <= f + ":" + rest && f + "=" <= f + "=" + rest;
    RedactsExactly(sensitive, f + ":" + rest, order);
    RedactsExactly(sensitive, f + "=" + rest, order);
  }

  lemma MaskIsToken(token: string, f: string)
    requires Token(token) && Matches(token, f)
    ensures Token(Masked(f)) && Matches(Masked(f), f)
  {
    MatchesPrefix(token, f);
    forall i | 0 <= i < |Masked(f)| ensures !IsSpace(Masked(f)[i]) {
      if i < |f| { assert f[i] == token[i]; } else { assert Masked(f)[i] == ":\"********\""[i - |f|]; }
    }
    assert Masked(f)[..|f| + 1] == f + ":";
  }

  /** Without shadowing, redacting what was redacted changes nothing. */
  lemma RedactedTwice(sensitive: set<string>, data: string, orders: seq<seq<string>>, again: seq<seq<string>>)
    requires Unambiguous(sensitive)
    requires VisitOrders(orders, |Fields(data)|, sensitive)
    requires VisitOrders(again, |Fields(Redact(data, orders))|, sensitive)
    ensures Redact(Redact(data, orders), again) == Redact(data, orders)
  {
    var once := Redact(data, orders);
    RedactionIs(sensitive, data, orders);
    FieldsAreTokens(data, "");
    FieldsAreTokens(once, "");
    var before, mid := Fields(data), Fields(once);
    forall i | 0 <= i < |mid| ensures RedactToken(mid[i], again[i]) == mid[i] {
      RedactsExactly(sensitive, mid[i], again[i]);
      if f :| f in sensitive && Matches(before[i], f) {
        MaskIsToken(before[i], f);
      }
    }
    assert RedactTokens(mid, again) == mid;
    RedactJoined(data, orders);
  }

  /** The redacted text is its own tokens joined. */
  lemma RedactJoined(data: string, orders: seq<seq<string>>)
    requires |orders| == |Fields(data)|
    ensures Join(Fields(Redact(data, orders)), ' ') == Redact(data, orders)
  {
    var before, after := Fields(data), RedactTokens(Fields(data), orders);
    FieldsAreTokens(data, "");
    forall i | 0 <= i < |after| ensures Token(after[i]) {
      RedactTokenIs(before[i], orders[i]);
      if f :| f in orders[i] && Matches(before[i], f) && after[i] == Masked(f) {
        MaskIsToken(before[i], f);
      }
    }
    FieldsJoined(after);
  }

  ghost predicate OrderDoesNotShow(sensitive: set<string>) {
    forall data: string, orders, orders' ::
      VisitOrders(orders, |Fields(data)|, sensitive) && VisitOrders(orders', |Fields(data)|, sensitive) ==>
        Redact(data, orders) == Redact(data, orders')
  }

  lemma SameForAllOrders(sensitive: set<string>, data: string, orders: seq<seq<string>>, orders': seq<seq<string>>)
    requires Unambiguous(sensitive)
    requires VisitOrders(orders, |Fields(data)|, sensitive) && VisitOrders(orders', |Fields(data)|, sensitive)
    ensures Redact(data, orders) == Redact(data, orders')
  {
    var tokens := Fields(data);
    FieldsAreTokens(data, "");
    forall i | 0 <= i < |tokens| ensures RedactToken(tokens[i], orders[i]) == RedactToken(tokens[i], orders'[i]) {
      RedactsExactly(sensitive, tokens[i], orders[i]);
      RedactsExactly(sensitive, tokens[i], orders'[i]);
    }
    assert RedactTokens(tokens, orders) == RedactTokens(tokens, orders');
  }

  /** A shadowed field makes the result a matter of chance: the token `g:` is masked as f or as g. */
  lemma ShadowShows(sensitive: set<string>, f: string, g: string)
    requires f in sensitive && g in sensitive && Shadows(f, g)
    ensures !OrderDoesNotShow(sensitive)
  {
    var data := g + ":";
    MatchesPrefix(g, f);
    assert data[..|g| + 1] == data;
    assert g[..|f| + 1] == data[..|f| + 1];
    var front := OrderEndingWith(sensitive, f);
    var front' := OrderEndingWith(sensitive, g);
    OneTokenRedacted(data, front, f);
    OneTokenRedacted(data, front', g);
    assert VisitOrders([front + [f]], 1, sensitive) && VisitOrders([front' + [g]], 1, sensitive);
    assert Redact(data, [front + [f]]) == Masked(f) && Redact(data, [front' + [g]]) == Masked(g);
  }

  /** Redacting again changes nothing, whatever the data and the two iterations. */
  ghost predicate RedactIdempotent(sensitive: set<string>) {
    forall data: string, orders, again ::
      VisitOrders(orders, |Fields(data)|, sensitive)
      && VisitOrders(again, |Fields(Redact(data, orders))|, sensitive) ==>
        Redact(Redact(data, orders), again) == Redact(data, orders)
  }

  /** The token `g:` is masked as g and, another time, that mask as f. */
  lemma ShadowRemasked(sensitive: set<string>, f: string, g: string)
    requires f in sensitive && g in sensitive && Shadows(f, g)
    ensures !RedactIdempotent(sensitive)
  {
    var data := g + ":";
    assert Token(data) && Matches(data, g) by { assert data[..|g| + 1] == data; }
    var front := OrderEndingWith(sensitive, g);
    OneTokenRedacted(data, front, g);
    MatchesPrefix(g, f);
    var once := Masked(g);
    MaskIsToken(data, g);
    assert Matches(once, f) by { assert g[..|f| + 1] == once[..|f| + 1]; }
    var front' := OrderEndingWith(sensitive, f);
    OneTokenRedacted(once, front', f);
    assert VisitOrders([front + [g]], 1, sensitive) && VisitOrders([front' + [f]], 1, sensitive);
    assert Masked(f) != Masked(g) by { assert |Masked(f)| < |Masked(g)|; }
  }

  lemma OneTokenRedacted(token: string, front: seq<string>, f: string)
    requires Token(token) && Matches(token, f)
    ensures Fields(token) == [token] && Redact(token, [front + [f]]) == Masked(f)
  {
    FieldsJoined([token]);
    assert (front + [f])[|front|] == f;
  }

  /** Redacting is idempotent exactly when no listed field shadows another. */
  lemma RedactIdempotentIff(sensitive: set<string>)
    ensures RedactIdempotent(sensitive) <==> Unambiguous(sensitive)
  {
    if Unambiguous(sensitive) {
      forall data: string, orders, again |
        VisitOrders(orders, |Fields(data)|, sensitive) && VisitOrders(again, |Fields(Redact(data, orders))|, sensitive)
        ensures Redact(Redact(data, orders), again) == Redact(data, orders)
      {
        RedactedTwice(sensitive, data, orders, again);
      }
    } else {
      var f, g :| f in sensitive && g in sensitive && Shadows(f, g);
      ShadowRemasked(sensitive, f, g);
    }
  }

  /** The text is the same for every iteration order exactly when no listed field shadows another. */
  lemma OrderDoesNotShowIff(sensitive: set<string>)
    ensures OrderDoesNotShow(sensitive) <==> Unambiguous(sensitive)
  {
    if Unambiguous(sensitive) {
      forall data: string, orders, orders' |
        VisitOrders(orders, |Fields(data)|, sensitive) && VisitOrders(orders', |Fields(data)|, sensitive)
        ensures Redact(data, orders) == Redact(data, orders')
      {
        SameForAllOrders(sensitive, data, orders, orders');
      }
    } else {
      var f, g :| f in sensitive && g in sensitive && Shadows(f, g);
      ShadowShows(sensitive, f, g);
    }
  }
}
