/** The record service of the Express server (backend/index.js): each handler
    loads the document `{characters: [...]}`, transforms the `characters` list
    and, for the three writing handlers, saves the document back. */
module Backend {
  import opened Json
  import opened Sequences

  /** What a handler answers: the record, or 404. */
  datatype Outcome = Ok(record: Record) | NotFound

  /** Every record carries a numeric id, and it is at least 1. */
  predicate PositiveIds(s: seq<Record>)
  {
    forall i :: 0 <= i < |s| ==> IdOf(s[i]).Some? && IdOf(s[i]).value >= 1
  }

  /** No two records share a numeric id. */
  predicate UniqueIds(s: seq<Record>)
  {
    forall i, j :: 0 <= i < j < |s| && IdOf(s[i]).Some? ==> IdOf(s[i]) != IdOf(s[j])
  }

  /** The invariant the create handler aims at ("Générer un nouvel ID unique",
      backend/index.js:72): every id is a positive number and no two are equal. */
  predicate WellIdentified(s: seq<Record>)
  {
    PositiveIds(s) && UniqueIds(s)
  }

  // ---------------------------------------------------------------------------
  // Id assignment on create

  /** One step of the reduce that computes the largest id: `c.id > max ? c.id : max`. */
  function MaxStep(max: int, c: Record): int
  {
    match IdOf(c)
    case Some(n) => if n > max then n else max
    case None => max
  }

  /** `s.reduce(MaxStep, acc)`, folding from the left. The result is at least the
      seed, at least every id in `s`, and is either the seed or one of those ids. */
  function MaxIdFrom(s: seq<Record>, acc: int): (m: int)
    ensures m >= acc
    ensures forall i :: 0 <= i < |s| && IdOf(s[i]).Some? ==> IdOf(s[i]).value <= m
    ensures m == acc || exists i :: 0 <= i < |s| && IdOf(s[i]) == Some(m)
    decreases |s|
  {
    if s == [] then acc else MaxIdFrom(s[1..], MaxStep(acc, s[0]))
  }

  /** The id a create assigns: one more than the largest id, the largest id
      being 0 for a list without ids. It is at least 1 and greater than every
      id currently in the list. */
  function NewId(s: seq<Record>): (n: int)
    ensures n >= 1
    ensures forall i :: 0 <= i < |s| && IdOf(s[i]).Some? ==> IdOf(s[i]).value < n
  {
    MaxIdFrom(s, 0) + 1
  }

  /** The body of a create with its id overwritten by the assigned one. */
  function Stamped(s: seq<Record>, body: Record): (c: Record)
    ensures IdOf(c) == Some(NewId(s))
    ensures forall k :: k in body && k != "id" ==> k in c && c[k] == body[k]
    ensures c.Keys == body.Keys + {"id"}
  {
    body["id" := Num(NewId(s))]
  }

  // ---------------------------------------------------------------------------
  // Lookup by id

  /** `s.findIndex(c => c.id === id)`: the first index whose record has id `id`,
      or -1 when there is none. */
  function FindIndex(s: seq<Record>, id: int): (r: int)
    ensures -1 <= r < |s|
    ensures r == -1 <==> forall i :: 0 <= i < |s| ==> IdOf(s[i]) != Some(id)
    ensures r >= 0 ==> IdOf(s[r]) == Some(id)
    ensures r >= 0 ==> forall j :: 0 <= j < r ==> IdOf(s[j]) != Some(id)
  {
    if s == [] then -1
    else if IdOf(s[0]) == Some(id) then 0
    else
      var k := FindIndex(s[1..], id);
      if k == -1 then -1 else k + 1
  }

  // ---------------------------------------------------------------------------
  // Update merge

  /** `{...old, ...body, id}`: the body's fields override the old record's, and
      `id` is the path id whatever either of them says. */
  function Merge(stored: Record, body: Record, id: int): (m: Record)
    ensures m.Keys == stored.Keys + body.Keys + {"id"}
    ensures m["id"] == Num(id)
    ensures forall k :: k in body && k != "id" ==> m[k] == body[k]
    ensures forall k :: k in stored && k !in body && k != "id" ==> m[k] == stored[k]
  {
    (stored + body)["id" := Num(id)]
  }

  // ---------------------------------------------------------------------------
  // The document

  /** The list held in user.json. A handler's load is a read of `characters`
      and its save an assignment to it. */
  class CharacterFile {
    var characters: seq<Record>

    constructor (stored: seq<Record>)
      ensures characters == stored
    {
      characters := stored;
    }

    predicate Valid()
      reads this
    {
      WellIdentified(characters)
    }

    /** GET /characters: the stored list, unchanged and in order. */
    method List() returns (r: seq<Record>)
      ensures r == characters
    {
      r := characters;
    }

    /** GET /characters/:id: the first record with the requested id, or 404. */
    method Get(id: int) returns (r: Outcome)
      ensures r.NotFound? <==> forall i :: 0 <= i < |characters| ==> IdOf(characters[i]) != Some(id)
      ensures r.Ok? ==> var k := FindIndex(characters, id); 0 <= k && r.record == characters[k]
    {
      var i := 0;
      while i < |characters|
        invariant 0 <= i <= |characters|
        invariant forall j :: 0 <= j < i ==> IdOf(characters[j]) != Some(id)
      {
        if IdOf(characters[i]) == Some(id) {
          return Ok(characters[i]);
        }
        i := i + 1;
      }
      return NotFound;
    }

    /** POST /characters: stamp the body with the next id and append it. */
    method Create(body: Record) returns (created: Record)
      modifies this
      ensures created == Stamped(old(characters), body)
      ensures characters == old(characters) + [created]
      ensures old(Valid()) ==> Valid()
    {
      created := Stamped(characters, body);
      CreateKeepsIds(characters, body);
      characters := characters + [created];
    }

    /** PUT /characters/:id: merge the body into the first record with that id,
      in place; 404 and no write when there is none. */
    method Update(id: int, body: Record) returns (r: Outcome)
      modifies this
      ensures var k := FindIndex(old(characters), id);
        if k == -1 then r == NotFound && characters == old(characters)
        else r == Ok(Merge(old(characters)[k], body, id)) && characters == old(characters)[k := r.record]
      ensures old(Valid()) ==> Valid()
    {
      var index := FindIndex(characters, id);
      if index == -1 {
        return NotFound;
      }
      var updated := Merge(characters[index], body, id);
      UpdateKeepsIds(characters, id, body);
      characters := characters[index := updated];
      r := Ok(updated);
    }

    /** DELETE /characters/:id: splice out the first record with that id and
      return it; 404 and no write when there is none. */
    method Delete(id: int) returns (r: Outcome)
      modifies this
      ensures var k := FindIndex(old(characters), id);
        if k == -1 then r == NotFound && characters == old(characters)
        else r == Ok(old(characters)[k]) && characters == RemoveAt(old(characters), k)
      ensures old(Valid()) ==> Valid()
    {
      var index := FindIndex(characters, id);
      if index == -1 {
        return NotFound;
      }
      var deleted := characters[index];
      DeleteKeepsIds(characters, index);
      characters := RemoveAt(characters, index);
      r := Ok(deleted);
    }
  }

  // ---------------------------------------------------------------------------
  // Properties of the handlers

  lemma {:induction false} MaxIdSnoc(s: seq<Record>, c: Record, acc: int)
    ensures MaxIdFrom(s + [c], acc) == MaxStep(MaxIdFrom(s, acc), c)
    decreases |s|
  {
    if s == [] {
      assert s + [c] == [c];
    } else {
      assert (s + [c])[1..] == s[1..] + [c];
      MaxIdSnoc(s[1..], c, MaxStep(acc, s[0]));
    }
  }

  /** Back-to-back creates are issued consecutive ids. */
  lemma CreateIdsIncrease(s: seq<Record>, body: Record)
    ensures NewId(s + [Stamped(s, body)]) == NewId(s) + 1
  {
    MaxIdSnoc(s, Stamped(s, body), 0);
  }

  /** Creating keeps ids positive and unique. */
  lemma CreateKeepsIds(s: seq<Record>, body: Record)
    ensures PositiveIds(s) ==> PositiveIds(s + [Stamped(s, body)])
    ensures UniqueIds(s) ==> UniqueIds(s + [Stamped(s, body)])
  {
  }

  /** A lookup of the assigned id right after a create finds the created record. */
  lemma CreateThenFind(s: seq<Record>, body: Record)
    ensures FindIndex(s + [Stamped(s, body)], NewId(s)) == |s|
  {
    var c := Stamped(s, body);
    var t := s + [c];
    assert t[|s|] == c;
  }

  /** An update never changes the record's id, whatever id the body carries, so
      ids stay positive and unique. */
  lemma UpdateKeepsIds(s: seq<Record>, id: int, body: Record)
    requires FindIndex(s, id) >= 0
    ensures var k := FindIndex(s, id); IdOf(Merge(s[k], body, id)) == IdOf(s[k])
    ensures var k := FindIndex(s, id);
      (PositiveIds(s) ==> PositiveIds(s[k := Merge(s[k], body, id)])) &&
      (UniqueIds(s) ==> UniqueIds(s[k := Merge(s[k], body, id)]))
  {
    var k := FindIndex(s, id);
    var t := s[k := Merge(s[k], body, id)];
    assert forall i :: 0 <= i < |s| ==> IdOf(t[i]) == IdOf(s[i]);
  }

  /** Deleting keeps ids positive and unique. */
  lemma DeleteKeepsIds(s: seq<Record>, k: nat)
    requires k < |s|
    ensures PositiveIds(s) ==> PositiveIds(RemoveAt(s, k))
    ensures UniqueIds(s) ==> UniqueIds(RemoveAt(s, k))
  {
    var t := RemoveAt(s, k);
    if UniqueIds(s) {
      forall i, j | 0 <= i < j < |t| && IdOf(t[i]).Some?
        ensures IdOf(t[i]) != IdOf(t[j])
      {
        var i' := if i < k then i else i + 1;
        var j' := if j < k then j else j + 1;
        assert t[i] == s[i'] && t[j] == s[j'] && i' < j';
      }
    }
  }

  /** With unique ids, a lookup of a deleted id finds nothing afterwards. */
  lemma DeleteThenFind(s: seq<Record>, id: int)
    requires UniqueIds(s) && FindIndex(s, id) >= 0
    ensures FindIndex(RemoveAt(s, FindIndex(s, id)), id) == -1
  {
    var k := FindIndex(s, id);
    var t := RemoveAt(s, k);
    forall i | 0 <= i < |t|
      ensures IdOf(t[i]) != Some(id)
    {
      if i >= k {
        assert t[i] == s[i + 1];
      }
    }
  }

  /** A delete of one id leaves every other id findable exactly where it was
      found before, shifted down by one past the deleted index; this holds even
      when the stored list repeats ids. */
  lemma DeleteKeepsOthersFindable(s: seq<Record>, id: int, other: int)
    requires FindIndex(s, id) >= 0 && other != id
    ensures var k := FindIndex(s, id); var j := FindIndex(s, other);
      FindIndex(RemoveAt(s, k), other) == if j == -1 then -1 else if j < k then j else j - 1
  {
    var k := FindIndex(s, id);
    var j := FindIndex(s, other);
    var t := RemoveAt(s, k);
    if j == -1 {
      forall i | 0 <= i < |t| ensures IdOf(t[i]) != Some(other) {
        if i >= k { assert t[i] == s[i + 1]; }
      }
    } else if j < k {
      assert t[j] == s[j];
    } else {
      assert j != k;
      assert t[j - 1] == s[j];
      forall i | 0 <= i < j - 1 ensures IdOf(t[i]) != Some(other) {
        if i >= k { assert t[i] == s[i + 1]; }
      }
    }
  }

  /** Ids are not fresh over the file's history: once the record holding the
      largest id is deleted, the next create issues an id no larger than the
      deleted one. */
  lemma NewIdAfterDeletingMax(s: seq<Record>, k: nat)
    requires WellIdentified(s) && k < |s| && IdOf(s[k]) == Some(MaxIdFrom(s, 0))
    ensures NewId(RemoveAt(s, k)) <= IdOf(s[k]).value
  {
    var t := RemoveAt(s, k);
    var m := MaxIdFrom(s, 0);
    forall i | 0 <= i < |t| && IdOf(t[i]).Some?
      ensures IdOf(t[i]).value < m
    {
      OtherIdBelowMax(s, k, if i < k then i else i + 1);
    }
    var m' := MaxIdFrom(t, 0);
    assert m' == 0 || m' < m;
  }

  lemma OtherIdBelowMax(s: seq<Record>, k: nat, i: nat)
    requires UniqueIds(s) && k < |s| && i < |s| && i != k
    requires IdOf(s[k]) == Some(MaxIdFrom(s, 0)) && IdOf(s[i]).Some?
    ensures IdOf(s[i]).value < IdOf(s[k]).value
  {
    if i < k {
      assert IdOf(s[i]) != IdOf(s[k]);
    } else {
      assert IdOf(s[k]) != IdOf(s[i]);
    }
  }

  /** The smallest instance: create into an empty file, delete that record,
      create again, and the same id 1 is issued twice. */
  lemma IdReusedAfterDelete(first: Record, second: Record)
    ensures var s := [Stamped([], first)];
      IdOf(s[0]) == Some(1) && IdOf(Stamped(RemoveAt(s, 0), second)) == Some(1)
  {
  }

  /** A sample session: one stored character, a create, an update of
      the first one's universe, a delete of the second, and a lookup that then
      finds nothing. */
  lemma Walkthrough()
    ensures var spider := map["id" := Num(1), "name" := Str("Spider-Man"),
                              "realName" := Str("Peter Parker"), "universe" := Str("Earth-616")];
      var iron := map["name" := Str("Iron Man"), "realName" := Str("Tony Stark"),
                      "universe" := Str("Earth-616")];
      var s1 := [spider] + [Stamped([spider], iron)];
      var s2 := s1[0 := Merge(s1[0], map["universe" := Str("Earth-1610")], 1)];
      var s3 := RemoveAt(s2, 1);
      IdOf(s1[1]) == Some(2) && FindIndex(s1, 1) == 0 && FindIndex(s2, 2) == 1 &&
      s2[0] == spider["universe" := Str("Earth-1610")] &&
      s3 == [s2[0]] && FindIndex(s3, 2) == -1
  {
    var spider := map["id" := Num(1), "name" := Str("Spider-Man"),
                      "realName" := Str("Peter Parker"), "universe" := Str("Earth-616")];
    var iron := map["name" := Str("Iron Man"), "realName" := Str("Tony Stark"),
                    "universe" := Str("Earth-616")];
    assert NewId([spider]) == 2;
    var s1 := [spider] + [Stamped([spider], iron)];
    assert IdOf(s1[0]) == Some(1) && IdOf(s1[1]) == Some(2);
    var s2 := s1[0 := Merge(s1[0], map["universe" := Str("Earth-1610")], 1)];
    assert IdOf(s2[0]) == Some(1) && IdOf(s2[1]) == Some(2);
  }
}
