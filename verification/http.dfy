/** HTTP values as the proxy handler sees them: header lists, bodies and
    responses, with the two header-assignment disciplines the handler relies
    on. Response headers behave as a header bag whose names compare
    case-insensitively (`response.headers[name] = value`); the forwarded
    request headers are a plain Python dict keyed by the exact name. */
module Http {
  import opened Strings

  newtype byte = b: int | 0 <= b < 256

  datatype Header = Header(name: string, value: string)
  type Headers = seq<Header>

  /** A response body: nothing, a text message, or the relayed upstream bytes. */
  datatype Body = Empty | Text(text: string) | Bytes(bytes: seq<byte>)

  datatype Response = Response(status: int, headers: Headers, body: Body)

  /** Header names compare case-insensitively: `a.lower() == b.lower()`. */
  predicate SameName(a: string, b: string) {
    |a| == |b| && forall i :: 0 <= i < |a| ==> LowerChar(a[i]) == LowerChar(b[i])
  }

  /** The name matches one of `names`; with lower-case `names` this is
      Python's `name.lower() in names`. */
  predicate IsAnyOf(name: string, names: seq<string>) {
    exists j :: 0 <= j < |names| && SameName(name, names[j])
  }

  predicate HasName(h: Headers, name: string) {
    exists i :: 0 <= i < |h| && SameName(h[i].name, name)
  }

  /** No two entries of `h` share a name. */
  predicate Unique(h: Headers) {
    |h| == 0 || (!HasName(h[1..], h[0].name) && Unique(h[1..]))
  }

  /** `headers.get(name)`: the value of the first entry with that name. */
  function Get(h: Headers, name: string): (r: Option<string>)
    ensures r.Some? <==> HasName(h, name)
    ensures r.Some? ==> exists i :: 0 <= i < |h| && SameName(h[i].name, name) && h[i].value == r.value
  {
    if |h| == 0 then None
    else if SameName(h[0].name, name) then Some(h[0].value)
    else
      assert forall i :: 0 < i < |h| ==> h[i] == h[1..][i - 1];
      Get(h[1..], name)
  }

  /** The value of the last entry with that name: the one that survives when
      the entries are assigned one after another. */
  function GetLast(h: Headers, name: string): (r: Option<string>)
    ensures r.Some? <==> HasName(h, name)
    ensures r.Some? ==> exists i :: 0 <= i < |h| && SameName(h[i].name, name) && h[i].value == r.value
  {
    if |h| == 0 then None
    else if SameName(h[|h| - 1].name, name) then Some(h[|h| - 1].value)
    else
      assert forall i :: 0 <= i < |h| - 1 ==> h[i] == h[..|h| - 1][i];
      GetLast(h[..|h| - 1], name)
  }

  /** The entries whose name is none of `excluded`, in their original order. */
  function FilterOut(h: Headers, excluded: seq<string>): (r: Headers)
    ensures |r| <= |h|
    ensures forall i :: 0 <= i < |r| ==> !IsAnyOf(r[i].name, excluded)
  {
    if |h| == 0 then []
    else (if IsAnyOf(h[0].name, excluded) then [] else [h[0]]) + FilterOut(h[1..], excluded)
  }

  /** `headers[name] = value` on a response's header bag: the first entry with
      that name is replaced in place, later ones are dropped, and when there
      is none the entry is appended. */
  function Assign(h: Headers, name: string, value: string): Headers
  {
    if |h| == 0 then [Header(name, value)]
    else if SameName(h[0].name, name) then [Header(name, value)] + FilterOut(h[1..], [name])
    else [h[0]] + Assign(h[1..], name, value)
  }

  /** `d[key] = value` on a Python dict kept as an insertion-ordered list of
      entries: an entry with exactly that key keeps its place and takes the
      new value; otherwise the entry is appended. */
  function DictPut(d: Headers, key: string, value: string): Headers
  {
    if |d| == 0 then [Header(key, value)]
    else if d[0].name == key then [Header(key, value)] + d[1..]
    else [d[0]] + DictPut(d[1..], key, value)
  }

  /** `d.get(key)` on such a dict: exact key comparison. */
  function DictGet(d: Headers, key: string): (r: Option<string>)
    ensures r.Some? <==> exists i :: 0 <= i < |d| && d[i].name == key
  {
    if |d| == 0 then None
    else if d[0].name == key then Some(d[0].value)
    else
      assert forall i :: 0 < i < |d| ==> d[i] == d[1..][i - 1];
      DictGet(d[1..], key)
  }

  /** No two entries of `d` have exactly the same key, as in a Python dict. */
  predicate DistinctKeys(d: Headers) {
    forall i, j :: 0 <= i < j < |d| ==> d[i].name != d[j].name
  }

  // ---------------------------------------------------------------------
  // Name matching

  /** Matching a one-name list is matching that name. */
  lemma AnyOfSingle(n: string, name: string)
    ensures IsAnyOf(n, [name]) <==> SameName(n, name)
  {
    if SameName(n, name) {
      assert SameName(n, [name][0]);
    }
  }

  /** A name matches whatever a same-named header name matches. */
  lemma AnyOfRespectsSameName(a: string, b: string, names: seq<string>)
    requires SameName(a, b)
    ensures IsAnyOf(a, names) <==> IsAnyOf(b, names)
  {
    if IsAnyOf(a, names) {
      var j :| 0 <= j < |names| && SameName(a, names[j]);
      assert SameName(b, names[j]);
    }
    if IsAnyOf(b, names) {
      var j :| 0 <= j < |names| && SameName(b, names[j]);
      assert SameName(a, names[j]);
    }
  }

  // ---------------------------------------------------------------------
  // Lookups through the filter

  lemma {:induction false} FilterOutGet(h: Headers, excluded: seq<string>, name: string)
    ensures Get(FilterOut(h, excluded), name) == if IsAnyOf(name, excluded) then None else Get(h, name)
    decreases |h|
  {
    if |h| > 0 {
      var rest := FilterOut(h[1..], excluded);
      FilterOutGet(h[1..], excluded, name);
      if !IsAnyOf(h[0].name, excluded) {
        assert FilterOut(h, excluded) == [h[0]] + rest;
        assert ([h[0]] + rest)[1..] == rest;
      } else {
        assert FilterOut(h, excluded) == rest;
      }
    }
  }

  lemma {:induction false} FilterOutGetLast(h: Headers, excluded: seq<string>, name: string)
    ensures GetLast(FilterOut(h, excluded), name) == if IsAnyOf(name, excluded) then None else GetLast(h, name)
    decreases |h|
  {
    if |h| > 0 {
      var init := h[..|h| - 1];
      var last := h[|h| - 1];
      var rest := FilterOut(init, excluded);
      assert init + [last] == h;
      FilterOutGetLast(init, excluded, name);
      FilterOutSnoc(init, last, excluded);
      GetLastSnoc(init, last, name);
      if !IsAnyOf(last.name, excluded) {
        GetLastSnoc(rest, last, name);
        if SameName(last.name, name) {
          AnyOfRespectsSameName(last.name, name, excluded);
        }
      } else {
        assert rest + [] == rest;
        if SameName(last.name, name) {
          AnyOfRespectsSameName(last.name, name, excluded);
        }
      }
    }
  }

  /** The last entry decides `GetLast` when it has the name. */
  lemma GetLastSnoc(h: Headers, f: Header, name: string)
    ensures GetLast(h + [f], name) == if SameName(f.name, name) then Some(f.value) else GetLast(h, name)
  {
    var s := h + [f];
    assert s[|s| - 1] == f && s[..|s| - 1] == h;
  }

  /** Filtering distributes over appending one entry. */
  lemma {:induction false} FilterOutSnoc(h: Headers, f: Header, excluded: seq<string>)
    ensures FilterOut(h + [f], excluded)
         == FilterOut(h, excluded) + (if IsAnyOf(f.name, excluded) then [] else [f])
    decreases |h|
  {
    if |h| == 0 {
      assert h + [f] == [f];
    } else {
      FilterOutSnoc(h[1..], f, excluded);
      assert (h + [f])[1..] == h[1..] + [f];
    }
  }

  /** Dropping one name and then a set holding it is dropping the set. */
  lemma {:induction false} FilterOutAbsorb(h: Headers, name: string, excluded: seq<string>)
    requires IsAnyOf(name, excluded)
    ensures FilterOut(FilterOut(h, [name]), excluded) == FilterOut(h, excluded)
    decreases |h|
  {
    if |h| > 0 {
      var once := FilterOut(h, [name]);
      FilterOutAbsorb(h[1..], name, excluded);
      AnyOfSingle(h[0].name, name);
      if !SameName(h[0].name, name) {
        assert once == [h[0]] + FilterOut(h[1..], [name]);
        assert once[1..] == FilterOut(h[1..], [name]);
      } else {
        AnyOfRespectsSameName(h[0].name, name, excluded);
        assert once == FilterOut(h[1..], [name]);
      }
    }
  }

  lemma {:induction false} FilterOutHasName(h: Headers, excluded: seq<string>, name: string)
    ensures HasName(FilterOut(h, excluded), name) <==> !IsAnyOf(name, excluded) && HasName(h, name)
  {
    FilterOutGet(h, excluded, name);
  }

  lemma {:induction false} FilterOutUnique(h: Headers, excluded: seq<string>)
    requires Unique(h)
    ensures Unique(FilterOut(h, excluded))
    decreases |h|
  {
    if |h| > 0 {
      var rest := FilterOut(h[1..], excluded);
      assert !HasName(h[1..], h[0].name) && Unique(h[1..]);
      FilterOutUnique(h[1..], excluded);
      FilterOutHasName(h[1..], excluded, h[0].name);
      if !IsAnyOf(h[0].name, excluded) {
        var r := [h[0]] + rest;
        assert FilterOut(h, excluded) == r;
        assert r[1..] == rest;
        assert !HasName(r[1..], r[0].name) && Unique(r[1..]);
      } else {
        assert FilterOut(h, excluded) == [] + rest == rest;
      }
    }
  }

  // ---------------------------------------------------------------------
  // What an assignment to the header bag does

  /** After `h[name] = value`, that name reads `value` and every other name
      reads what it read before. */
  lemma {:induction false} AssignGet(h: Headers, name: string, value: string, other: string)
    ensures Get(Assign(h, name, value), other)
         == if SameName(other, name) then Some(value) else Get(h, other)
    decreases |h|
  {
    if |h| > 0 && !SameName(h[0].name, name) {
      AssignGet(h[1..], name, value, other);
    } else if |h| > 0 {
      FilterOutGet(h[1..], [name], other);
      AnyOfSingle(other, name);
    }
  }

  /** The assignment leaves the entries of every other name untouched and in
      order: removing the assigned name before or after gives the same list. */
  lemma {:induction false} AssignKeepsOthers(h: Headers, name: string, value: string, excluded: seq<string>)
    requires IsAnyOf(name, excluded)
    ensures FilterOut(Assign(h, name, value), excluded) == FilterOut(h, excluded)
    decreases |h|
  {
    if |h| > 0 {
      if SameName(h[0].name, name) {
        FilterOutAbsorb(h[1..], name, excluded);
      } else {
        AssignKeepsOthers(h[1..], name, value, excluded);
      }
    }
  }

  /** Every entry carrying the assigned name is the assigned entry. */
  lemma {:induction false} AssignOnlyNew(h: Headers, name: string, value: string)
    ensures forall i :: 0 <= i < |Assign(h, name, value)| && SameName(Assign(h, name, value)[i].name, name)
              ==> Assign(h, name, value)[i] == Header(name, value)
    decreases |h|
  {
    if |h| > 0 && !SameName(h[0].name, name) {
      AssignOnlyNew(h[1..], name, value);
    } else if |h| > 0 {
      var rest := FilterOut(h[1..], [name]);
      forall i | 0 <= i < |rest|
        ensures !SameName(rest[i].name, name)
      {
        AnyOfSingle(rest[i].name, name);
      }
    }
  }

  lemma AssignHasName(h: Headers, name: string, value: string, other: string)
    ensures HasName(Assign(h, name, value), other) <==> SameName(other, name) || HasName(h, other)
  {
    AssignGet(h, name, value, other);
  }

  /** A bag without repeated names keeps that property under assignment. */
  lemma {:induction false} AssignUnique(h: Headers, name: string, value: string)
    requires Unique(h)
    ensures Unique(Assign(h, name, value))
    decreases |h|
  {
    if |h| > 0 {
      if SameName(h[0].name, name) {
        FilterOutUnique(h[1..], [name]);
        FilterOutHasName(h[1..], [name], name);
        AnyOfSingle(name, name);
      } else {
        AssignUnique(h[1..], name, value);
        AssignHasName(h[1..], name, value, h[0].name);
      }
    }
  }

  // ---------------------------------------------------------------------
  // What a put into the dict does

  lemma {:induction false} DictPutGet(d: Headers, key: string, value: string, other: string)
    ensures DictGet(DictPut(d, key, value), other) == if other == key then Some(value) else DictGet(d, other)
    decreases |d|
  {
    if |d| > 0 && d[0].name != key {
      DictPutGet(d[1..], key, value, other);
    }
  }

  /** Putting a key that is absent appends it. */
  lemma {:induction false} DictPutAbsent(d: Headers, key: string, value: string)
    requires DictGet(d, key).None?
    ensures DictPut(d, key, value) == d + [Header(key, value)]
    decreases |d|
  {
    if |d| > 0 {
      DictPutAbsent(d[1..], key, value);
    }
  }

  /** Putting a key's present value again changes nothing. */
  lemma {:induction false} DictPutSame(d: Headers, key: string, value: string)
    requires DictGet(d, key) == Some(value)
    ensures DictPut(d, key, value) == d
    decreases |d|
  {
    if |d| > 0 && d[0].name != key {
      DictPutSame(d[1..], key, value);
    }
  }

  lemma {:induction false} DictPutDistinct(d: Headers, key: string, value: string)
    requires DistinctKeys(d)
    ensures DistinctKeys(DictPut(d, key, value))
    ensures forall i :: 0 <= i < |DictPut(d, key, value)| ==>
              DictPut(d, key, value)[i].name == key || DictPut(d, key, value)[i] in d
    decreases |d|
  {
    if |d| > 0 && d[0].name != key {
      DictPutDistinct(d[1..], key, value);
    }
  }

  // ---------------------------------------------------------------------
  // Bags without repeated names

  /** A name matched in a bag is matched by every same-named name. */
  lemma HasNameRespectsSameName(h: Headers, a: string, b: string)
    requires SameName(a, b)
    ensures HasName(h, a) <==> HasName(h, b)
  {
    if HasName(h, a) {
      var i :| 0 <= i < |h| && SameName(h[i].name, a);
      assert SameName(h[i].name, b);
    }
    if HasName(h, b) {
      var i :| 0 <= i < |h| && SameName(h[i].name, b);
      assert SameName(h[i].name, a);
    }
  }

  /** Lookup does not depend on how the name is spelled. */
  lemma {:induction false} GetRespectsSameName(h: Headers, a: string, b: string)
    requires SameName(a, b)
    ensures Get(h, a) == Get(h, b)
    decreases |h|
  {
    if |h| > 0 && !SameName(h[0].name, a) {
      GetRespectsSameName(h[1..], a, b);
    }
  }

  /** Dropping the last entry of a bag without repeated names leaves such a
      bag, and one that does not have the dropped name. */
  lemma {:induction false} UniqueSnoc(h: Headers)
    requires Unique(h) && |h| > 0
    ensures Unique(h[..|h| - 1]) && !HasName(h[..|h| - 1], h[|h| - 1].name)
    decreases |h|
  {
    var init := h[..|h| - 1];
    if |h| > 1 {
      UniqueSnoc(h[1..]);
      assert h[1..][..|h[1..]| - 1] == init[1..];
      assert h[1..][|h[1..]| - 1] == h[|h| - 1];
      assert init[0] == h[0];
      assert h[1..][|h| - 2] == h[|h| - 1];
    }
  }

  /** An exact key present in a bag without repeated names is the entry the
      case-insensitive lookup finds. */
  lemma {:induction false} UniqueDictGet(h: Headers, key: string)
    requires Unique(h) && DictGet(h, key).Some?
    ensures Get(h, key) == DictGet(h, key)
    decreases |h|
  {
    if h[0].name != key {
      var i :| 0 <= i < |h| && h[i].name == key;
      assert i > 0 && h[1..][i - 1] == h[i];
      UniqueDictGet(h[1..], key);
    }
  }

  /** An exact lookup survives filtering out names the key does not match. */
  lemma {:induction false} DictGetFilterOut(h: Headers, excluded: seq<string>, key: string)
    requires !IsAnyOf(key, excluded)
    ensures DictGet(FilterOut(h, excluded), key) == DictGet(h, key)
    decreases |h|
  {
    if |h| > 0 {
      var rest := FilterOut(h[1..], excluded);
      DictGetFilterOut(h[1..], excluded, key);
      if !IsAnyOf(h[0].name, excluded) {
        assert FilterOut(h, excluded) == [h[0]] + rest;
        assert ([h[0]] + rest)[1..] == rest;
      } else {
        assert FilterOut(h, excluded) == rest;
      }
    }
  }

  // ---------------------------------------------------------------------
  // Freshly built responses

  const ContentTypeName := "Content-Type"

  /** The content type the web framework gives a response built without one. */
  const DefaultMimetype := "text/html; charset=utf-8"

  /** A response as the web framework builds it: its only header is the
      content type it was given, or the default one. */
  function NewResponse(status: int, contentType: Option<string>, body: Body): (r: Response)
    ensures r.status == status && r.body == body
    ensures Get(r.headers, ContentTypeName) == Some(if contentType.Some? then contentType.value else DefaultMimetype)
    ensures forall n :: !SameName(n, ContentTypeName) ==> Get(r.headers, n).None?
    ensures Unique(r.headers)
  {
    var ct := match contentType
      case Some(t) => t
      case None => DefaultMimetype;
    var h := [Header(ContentTypeName, ct)];
    assert h[1..] == [];
    Response(status, h, body)
  }

  // ---------------------------------------------------------------------
  // A run of assignments

  /** Header-bag assignments applied one after another, in list order. */
  function AssignAll(h: Headers, assignments: Headers): Headers
    decreases |assignments|
  {
    if |assignments| == 0 then h
    else
      var last := assignments[|assignments| - 1];
      Assign(AssignAll(h, assignments[..|assignments| - 1]), last.name, last.value)
  }

  /** No two entries share a name, ignoring case. */
  ghost predicate DistinctNames(h: Headers) {
    forall i, j :: 0 <= i < j < |h| ==> !SameName(h[i].name, h[j].name)
  }

  /** `Unique` and `DistinctNames` are the same property, stated by
      recursion and by quantification. */
  lemma {:induction false} UniqueIsDistinctNames(h: Headers)
    ensures Unique(h) <==> DistinctNames(h)
    decreases |h|
  {
    if |h| > 0 {
      var t := h[1..];
      UniqueIsDistinctNames(t);
      assert forall j :: 1 <= j < |h| ==> h[j] == t[j - 1];
      if DistinctNames(h) {
        assert DistinctNames(t) by {
          forall i, j | 0 <= i < j < |t| ensures !SameName(t[i].name, t[j].name) {
            assert t[i] == h[i + 1] && t[j] == h[j + 1];
          }
        }
        forall k | 0 <= k < |t| ensures !SameName(t[k].name, h[0].name) {
          assert t[k] == h[k + 1];
        }
      }
      if Unique(h) {
        forall i, j | 0 <= i < j < |h| ensures !SameName(h[i].name, h[j].name) {
          assert h[j] == t[j - 1];
          if i > 0 {
            assert h[i] == t[i - 1];
          }
        }
      }
    }
  }

  lemma HasNameSnoc(h: Headers, f: Header, name: string)
    ensures HasName(h + [f], name) <==> HasName(h, name) || SameName(f.name, name)
  {
    if HasName(h + [f], name) && !SameName(f.name, name) {
      var i :| 0 <= i < |h + [f]| && SameName((h + [f])[i].name, name);
      assert i < |h| && h[i] == (h + [f])[i];
    }
    if HasName(h, name) {
      var i :| 0 <= i < |h| && SameName(h[i].name, name);
      assert (h + [f])[i] == h[i];
    }
    if SameName(f.name, name) {
      assert (h + [f])[|h|] == f;
    }
  }

  /** After a run of assignments a name reads the last value assigned to it,
      or what it read before when none was. */
  lemma {:induction false} AssignAllGet(h: Headers, assignments: Headers, n: string)
    ensures Get(AssignAll(h, assignments), n)
         == if HasName(assignments, n) then GetLast(assignments, n) else Get(h, n)
    decreases |assignments|
  {
    if |assignments| > 0 {
      var init := assignments[..|assignments| - 1];
      var last := assignments[|assignments| - 1];
      assert init + [last] == assignments;
      AssignAllGet(h, init, n);
      HasNameSnoc(init, last, n);
      AssignGet(AssignAll(h, init), last.name, last.value, n);
    }
  }

  /** A run of assignments to names all among `excluded` leaves the other
      entries as they were, in order. */
  lemma {:induction false} AssignAllKeepsOthers(h: Headers, assignments: Headers, excluded: seq<string>)
    requires forall i :: 0 <= i < |assignments| ==> IsAnyOf(assignments[i].name, excluded)
    ensures FilterOut(AssignAll(h, assignments), excluded) == FilterOut(h, excluded)
    decreases |assignments|
  {
    if |assignments| > 0 {
      var init := assignments[..|assignments| - 1];
      var last := assignments[|assignments| - 1];
      AssignAllKeepsOthers(h, init, excluded);
      AssignKeepsOthers(AssignAll(h, init), last.name, last.value, excluded);
    }
  }

  lemma {:induction false} AssignAllUnique(h: Headers, assignments: Headers)
    requires Unique(h)
    ensures Unique(AssignAll(h, assignments))
    decreases |assignments|
  {
    if |assignments| > 0 {
      var init := assignments[..|assignments| - 1];
      var last := assignments[|assignments| - 1];
      AssignAllUnique(h, init);
      AssignUnique(AssignAll(h, init), last.name, last.value);
    }
  }

  /** In a list without repeated names, each entry is the last of its name. */
  lemma {:induction false} GetLastDistinct(h: Headers, i: int)
    requires DistinctNames(h) && 0 <= i < |h|
    ensures GetLast(h, h[i].name) == Some(h[i].value)
    decreases |h|
  {
    if i < |h| - 1 {
      var init := h[..|h| - 1];
      assert init[i] == h[i];
      GetLastDistinct(init, i);
    }
  }

  /** After a run of assignments to distinct names, each name reads the
      value assigned to it. */
  lemma AssignAllReads(h: Headers, assignments: Headers, i: int)
    requires DistinctNames(assignments) && 0 <= i < |assignments|
    ensures Get(AssignAll(h, assignments), assignments[i].name) == Some(assignments[i].value)
  {
    AssignAllGet(h, assignments, assignments[i].name);
    GetLastDistinct(assignments, i);
  }
}
