/** How a PATCH request gets its update mask (server/middleware.go). */
module FieldMask {
  import opened Orders
  import opened SlicesSort
  import opened Collections
  import opened Texts

  /** What became of reading the request's body and taking it for a JSON object. A JSON null is taken for
      one without keys. */
  datatype Body =
    | Unreadable
    | Empty
    | Other
    | Null
    | Object(members: set<string>)
  {
    predicate IsObject() {
      Null? || Object?
    }

    function Keys(): set<string>
      requires IsObject()
    {
      if Null? then {} else members
    }
  }

  datatype Request = Request(httpMethod: string, updateMask: string, body: Body)

  datatype Injected = Nothing | Mask(mask: string)

  /** The key list that the mask is made of. */
  ghost predicate PathsOf(keys: set<string>, paths: seq<string>) {
    Ascending(LexLeq, paths) && (forall k :: k in paths <==> k in keys)
  }

  method PatchFieldMask(r: Request) returns (injected: Injected)
    ensures injected.Mask? <==>
              r.httpMethod == "PATCH" && r.updateMask == "" && (r.body.Null? || r.body.Object?)
    ensures injected.Mask? ==>
              exists paths :: Ascending(LexLeq, paths) && injected.mask == Join(paths, ',')
                              && forall k :: k in paths <==> r.body.Object? && k in r.body.members
  {
    if r.httpMethod != "PATCH" { return Nothing; }
    if r.updateMask != "" { return Nothing; }
    if r.body.Unreadable? || r.body.Empty? { return Nothing; }
    if r.body.Other? { return Nothing; }
    LexIsTotalOrder();
    var listed := ListKeys(r.body.Keys());
    var paths := new string[|listed|](i requires 0 <= i < |listed| => listed[i]);
    assert paths[..] == listed;
    Sort(paths, LexLeq);
    SortedDistinct(LexLeq, listed, paths[..]);
    assert PathsOf(r.body.Keys(), paths[..]);
    injected := Mask(Join(paths[..], ','));
  }

  /** The mask does not depend on the order in which the keys were listed. */
  lemma MaskUnique(keys: set<string>, paths: seq<string>, paths': seq<string>)
    requires PathsOf(keys, paths) && PathsOf(keys, paths')
    ensures Join(paths, ',') == Join(paths', ',')
  {
    LexIsTotalOrder();
    forall k ensures k in paths <==> k in paths' {
      assert k in paths <==> k in keys;
    }
    AscendingUnique(LexLeq, paths, paths');
  }

  /** Splitting the mask at commas gives back the body's keys in ascending order exactly when there is a
      key and no key has a comma. An empty object makes the mask the empty text, which splits into one
      empty path. */
  lemma MaskRoundTripIff(keys: set<string>, paths: seq<string>)
    requires PathsOf(keys, paths)
    ensures PathsOf(keys, Split(Join(paths, ','), ',')) <==> keys != {} && forall k :: k in keys ==> ',' !in k
  {
    SplitJoinIff(paths, ',');
    PiecesHaveNoSeparator(Join(paths, ','), ',');
    var pieces := Split(Join(paths, ','), ',');
    if PathsOf(keys, pieces) {
      assert pieces[0] in keys;
      forall k | k in keys ensures ',' !in k {
        assert k in pieces;
      }
    }
    if keys != {} && forall k :: k in keys ==> ',' !in k {
      var k :| k in keys;
      assert k in paths;
      assert forall i :: 0 <= i < |paths| ==> paths[i] in keys;
    }
  }
}
