/** The client component (frontend/src/App.jsx): a local copy of the record
    list, a filtered view of it driven by a search box, and a draft that is
    saved with POST or PUT. */
module App {
  import opened Json
  import opened Sequences
  import opened Strings
  import Backend

  /** The request a save sends: PUT /characters/{id} or POST /characters. */
  datatype SaveRequest = Put(id: Value) | Post

  /** JavaScript truthiness of a property value (NaN is not modelled). */
  predicate Truthy(v: Option<Value>)
  {
    match v
    case None => false
    case Some(Null) => false
    case Some(Bool(b)) => b
    case Some(Num(n)) => n != 0
    case Some(Str(s)) => s != ""
  }

  /** The draft the form starts from: three empty fields and no id. */
  function EmptyDraft(): Record
  {
    map["name" := Str(""), "realName" := Str(""), "universe" := Str("")]
  }

  /** A draft whose id is truthy is saved with PUT to that id; any other draft,
      with POST. */
  function SaveRequestFor(draft: Record): (req: SaveRequest)
    ensures req.Put? <==> Truthy(Prop(draft, "id"))
    ensures req.Put? ==> Prop(draft, "id") == Some(req.id)
  {
    if Truthy(Prop(draft, "id")) then Put(draft["id"]) else Post
  }

  // ---------------------------------------------------------------------------
  // Search

  /** Lowered `q` occurs in lowered `text`. */
  predicate FieldMatches(text: string, q: string)
  {
    Includes(Lower(text), Lower(q))
  }

  /** The filter's test on one record: the query occurs, ignoring case, in the
      name, the real name or the universe. */
  predicate Matches(c: Record, q: string)
  {
    FieldMatches(TextOf(c, "name"), q) ||
    FieldMatches(TextOf(c, "realName"), q) ||
    FieldMatches(TextOf(c, "universe"), q)
  }

  /** The test evaluates without a TypeError: each field `||` reaches is a string. */
  predicate SearchDefined(c: Record, q: string)
  {
    HasText(c, "name") &&
    (FieldMatches(TextOf(c, "name"), q) ||
      (HasText(c, "realName") &&
        (FieldMatches(TextOf(c, "realName"), q) || HasText(c, "universe"))))
  }

  /** The filtered view for a search term: the whole list for the empty term,
      otherwise the matching records in their original order. */
  function SearchView(cs: seq<Record>, q: string): (v: seq<Record>)
    requires q == "" || forall i :: 0 <= i < |cs| ==> SearchDefined(cs[i], q)
    ensures q == "" ==> v == cs
    ensures q != "" ==> forall c :: c in v <==> c in cs && Matches(c, q)
    ensures q != "" ==> forall c :: multiset(v)[c] == if Matches(c, q) then multiset(cs)[c] else 0
    ensures IsSubsequence(v, cs) && |v| <= |cs|
  {
    if q == "" then
      SubsequenceReflexive(cs);
      cs
    else
      FilterIsSubsequence(cs, c => Matches(c, q));
      FilterCount(cs, c => Matches(c, q));
      Filter(cs, c => Matches(c, q))
  }

  /** The empty-term shortcut agrees with the general test: "" matches everything. */
  lemma EmptySearchMatchesAll(cs: seq<Record>)
    ensures Filter(cs, c => Matches(c, "")) == cs
  {
    forall i | 0 <= i < |cs|
      ensures Matches(cs[i], "")
    {
      EmptyIncluded(Lower(TextOf(cs[i], "name")));
    }
    FilterAll(cs, c => Matches(c, ""));
  }

  /** Terms that differ only in case give the same view. */
  lemma SearchIgnoresCase(cs: seq<Record>, q1: string, q2: string)
    requires Lower(q1) == Lower(q2)
    requires q1 == "" || forall i :: 0 <= i < |cs| ==> SearchDefined(cs[i], q1)
    requires q2 == "" || forall i :: 0 <= i < |cs| ==> SearchDefined(cs[i], q2)
    ensures SearchView(cs, q1) == SearchView(cs, q2)
  {
    if q1 != "" {
      assert q2 != "";
      FilterCongruent(cs, c => Matches(c, q1), c => Matches(c, q2));
    } else {
      assert q2 == "";
    }
  }

  /** A term no record matches gives an empty view. */
  lemma SearchWithoutMatchIsEmpty(cs: seq<Record>, q: string)
    requires q != "" && forall i :: 0 <= i < |cs| ==> SearchDefined(cs[i], q)
    requires forall i :: 0 <= i < |cs| ==> !Matches(cs[i], q)
    ensures SearchView(cs, q) == []
  {
    FilterNone(cs, c => Matches(c, q));
  }

  // ---------------------------------------------------------------------------
  // Distinct universes

  /** `c.universe`. */
  function UniverseOf(c: Record): Option<Value>
  {
    Prop(c, "universe")
  }

  /** The values of `universe` across the list, as `new Set(...)` collects them
      one element at a time: the universe of every entry, nothing else, and no
      more values than entries. */
  function Universes(cs: seq<Record>): (u: set<Option<Value>>)
    ensures forall c :: c in cs ==> UniverseOf(c) in u
    ensures forall x :: x in u ==> exists c :: c in cs && UniverseOf(c) == x
    ensures |u| <= |cs|
  {
    if cs == [] then {}
    else
      assert cs == [cs[0]] + cs[1..];
      {UniverseOf(cs[0])} + Universes(cs[1..])
  }

  lemma {:induction false} UniversesAppend(cs: seq<Record>, c: Record)
    ensures Universes(cs + [c]) == Universes(cs) + {UniverseOf(c)}
  {
    if cs == [] {
      assert cs + [c] == [c];
    } else {
      assert (cs + [c])[0] == cs[0] && (cs + [c])[1..] == cs[1..] + [c];
      UniversesAppend(cs[1..], c);
    }
  }

  // ---------------------------------------------------------------------------
  // Local patches after a save or a delete

  /** `cs.map(c => c.id === id ? saved : c)`: every entry whose id equals `id`
      becomes `saved`, every other entry and the length stay. */
  function ReplaceById(cs: seq<Record>, id: Option<Value>, saved: Record): (r: seq<Record>)
    ensures |r| == |cs|
    ensures forall i :: 0 <= i < |cs| && Prop(cs[i], "id") == id ==> r[i] == saved
    ensures forall i :: 0 <= i < |cs| && Prop(cs[i], "id") != id ==> r[i] == cs[i]
  {
    if cs == [] then []
    else
      var rest := ReplaceById(cs[1..], id, saved);
      [if Prop(cs[0], "id") == id then saved else cs[0]] + rest
  }

  /** The local list after a successful save: replaced by id when the draft was
      an edit, the saved record appended when it was new. */
  function Patched(draft: Record, cs: seq<Record>, saved: Record): (r: seq<Record>)
    ensures Truthy(Prop(draft, "id")) ==> r == ReplaceById(cs, Prop(saved, "id"), saved)
    ensures !Truthy(Prop(draft, "id")) ==> |r| == |cs| + 1 && r[..|cs|] == cs && r[|cs|] == saved
  {
    if Truthy(Prop(draft, "id")) then ReplaceById(cs, Prop(saved, "id"), saved) else cs + [saved]
  }

  /** `cs.filter(c => c.id !== id)`: drops every entry with that id and keeps
      the others in order. */
  function RemoveById(cs: seq<Record>, id: Option<Value>): (r: seq<Record>)
    ensures forall c :: c in r <==> c in cs && Prop(c, "id") != id
    ensures forall c :: multiset(r)[c] == if Prop(c, "id") != id then multiset(cs)[c] else 0
    ensures IsSubsequence(r, cs)
  {
    FilterIsSubsequence(cs, c => Prop(c, "id") != id);
    FilterCount(cs, c => Prop(c, "id") != id);
    Filter(cs, c => Prop(c, "id") != id)
  }

  // ---------------------------------------------------------------------------
  // The component's state

  class App {
    var characters: seq<Record>
    var filteredCharacters: seq<Record>
    var searchTerm: string
    var formData: Record

    constructor ()
      ensures characters == [] && filteredCharacters == []
      ensures searchTerm == "" && formData == EmptyDraft()
    {
      characters := [];
      filteredCharacters := [];
      searchTerm := "";
      formData := EmptyDraft();
    }

    /** Number of distinct universes in the full list: at most its length, and
        zero exactly when the list is empty. */
    function UniqueUniverses(): (n: nat)
      reads this
      ensures n <= |characters|
      ensures n == 0 <==> characters == []
    {
      var u := Universes(characters);
      assert characters != [] ==> UniverseOf(characters[0]) in u;
      |u|
    }

    /** The count is the number of distinct universes: the size of any set that
        holds the universe of every entry and nothing else. */
    lemma UniqueUniversesCountsDistinct(distinct: set<Option<Value>>)
      requires forall c :: c in characters ==> UniverseOf(c) in distinct
      requires forall x :: x in distinct ==> exists c :: c in characters && UniverseOf(c) == x
      ensures UniqueUniverses() == |distinct|
    {
      assert distinct == Universes(characters);
    }

    /** The count a render shows after a record is appended: unchanged when its
        universe is already listed, one more otherwise. */
    lemma UniverseCountAfterAppend(c: Record)
      ensures var n := |Universes(characters + [c])|;
        if UniverseOf(c) in Universes(characters) then n == UniqueUniverses()
        else n == UniqueUniverses() + 1
    {
      var before := Universes(characters);
      UniversesAppend(characters, c);
      if UniverseOf(c) in before {
        assert before + {UniverseOf(c)} == before;
      } else {
        assert |before + {UniverseOf(c)}| == |before| + 1;
      }
    }

    /** The initial load: a good response replaces both lists; otherwise nothing changes. */
    method FetchCharacters(response: Option<seq<Record>>)
      modifies this
      ensures response.Some? ==> characters == response.value && filteredCharacters == response.value
      ensures response.None? ==> characters == old(characters) && filteredCharacters == old(filteredCharacters)
      ensures searchTerm == old(searchTerm) && formData == old(formData)
    {
      if response.Some? {
        characters := response.value;
        filteredCharacters := response.value;
      }
    }

    /** Typing in the search box. */
    method HandleSearch(value: string)
      requires value == "" || forall i :: 0 <= i < |characters| ==> SearchDefined(characters[i], value)
      modifies this
      ensures characters == old(characters) && formData == old(formData)
      ensures searchTerm == value
      ensures filteredCharacters == SearchView(characters, value)
    {
      searchTerm := value;
      if value == "" {
        filteredCharacters := characters;
      } else {
        filteredCharacters := Filter(characters, c => Matches(c, value));
      }
    }

    /** Opening the form on an existing record. */
    method HandleEdit(c: Record)
      modifies this
      ensures formData == c
      ensures characters == old(characters) && filteredCharacters == old(filteredCharacters)
      ensures searchTerm == old(searchTerm)
    {
      formData := c;
    }

    /** Opening the form for a new record. */
    method OpenNewDraft()
      modifies this
      ensures formData == EmptyDraft()
      ensures characters == old(characters) && filteredCharacters == old(filteredCharacters)
      ensures searchTerm == old(searchTerm)
    {
      formData := EmptyDraft();
    }

    /** Submitting the form. `response` is the saved record of a good response,
        and `None` for a failed fetch or a response that is not ok. On success
        both lists become the patched list, whatever the search term is. */
    method AddCharacter(response: Option<Record>) returns (req: SaveRequest)
      modifies this
      ensures req == SaveRequestFor(old(formData))
      ensures response.Some? ==>
        characters == Patched(old(formData), old(characters), response.value) &&
        filteredCharacters == characters && formData == EmptyDraft()
      ensures response.None? ==>
        characters == old(characters) && filteredCharacters == old(filteredCharacters) &&
        formData == old(formData)
      ensures searchTerm == old(searchTerm)
    {
      req := SaveRequestFor(formData);
      if response.Some? {
        var updated := Patched(formData, characters, response.value);
        characters := updated;
        filteredCharacters := updated;
        formData := EmptyDraft();
      }
    }

    /** Deleting a record. Only a fetch that throws skips the local removal;
        a response that is not ok still removes the record locally. */
    method DeleteCharacter(id: Option<Value>, fetchThrew: bool)
      modifies this
      ensures !fetchThrew ==> characters == RemoveById(old(characters), id) && filteredCharacters == characters
      ensures fetchThrew ==> characters == old(characters) && filteredCharacters == old(filteredCharacters)
      ensures searchTerm == old(searchTerm) && formData == old(formData)
    {
      if !fetchThrew {
        var updated := RemoveById(characters, id);
        characters := updated;
        filteredCharacters := updated;
      }
    }
  }

  // ---------------------------------------------------------------------------
  // The client's drafts and patches against the server's handlers

  /** A new draft is saved with POST. */
  lemma NewDraftPosts()
    ensures SaveRequestFor(EmptyDraft()) == Post
  {
    assert "id" !in EmptyDraft();
  }

  /** Editing a stored record yields a PUT to that record's id, and the server's
      lookup of that id finds the very record. */
  lemma EditOfStoredRecordPuts(s: seq<Record>, k: nat)
    requires Backend.WellIdentified(s) && k < |s|
    ensures var n := IdOf(s[k]).value;
      SaveRequestFor(s[k]) == Put(Num(n)) && Backend.FindIndex(s, n) == k
  {
  }

  /** With unique ids, replacing by id is replacing at the one matching index. */
  lemma ReplaceByIdAtIndex(s: seq<Record>, id: int, saved: Record)
    requires Backend.UniqueIds(s) && Backend.FindIndex(s, id) >= 0
    requires Prop(saved, "id") == Some(Num(id))
    ensures ReplaceById(s, Some(Num(id)), saved) == s[Backend.FindIndex(s, id) := saved]
  {
    var k := Backend.FindIndex(s, id);
    var r := ReplaceById(s, Some(Num(id)), saved);
    forall i | 0 <= i < |s| && i != k
      ensures r[i] == s[i]
    {
      assert IdOf(s[i]) != Some(id) by {
        if i > k {
          assert IdOf(s[k]) != IdOf(s[i]);
        }
      }
    }
  }

  /** After the server merges an edited draft, the client's local patch gives
      the same list as the server's write. */
  lemma LocalUpdateMirrorsServer(s: seq<Record>, draft: Record, n: int)
    requires Backend.UniqueIds(s) && n != 0 && IdOf(draft) == Some(n)
    requires Backend.FindIndex(s, n) >= 0
    ensures var k := Backend.FindIndex(s, n); var saved := Backend.Merge(s[k], draft, n);
      Patched(draft, s, saved) == s[k := saved]
  {
    var k := Backend.FindIndex(s, n);
    var saved := Backend.Merge(s[k], draft, n);
    assert Truthy(Prop(draft, "id"));
    ReplaceByIdAtIndex(s, n, saved);
  }

  /** With unique ids, removing every entry with the id is the server's splice
      of the first one. */
  lemma LocalDeleteMirrorsServer(s: seq<Record>, id: int)
    requires Backend.UniqueIds(s) && Backend.FindIndex(s, id) >= 0
    ensures RemoveById(s, Some(Num(id))) == RemoveAt(s, Backend.FindIndex(s, id))
  {
    var k := Backend.FindIndex(s, id);
    var keep := (c: Record) => Prop(c, "id") != Some(Num(id));
    forall i | 0 <= i < |s| && i != k
      ensures keep(s[i])
    {
      assert IdOf(s[i]) != Some(id) by {
        if i > k {
          assert IdOf(s[k]) != IdOf(s[i]);
        }
      }
    }
    FilterDropsOne(s, keep, k);
  }

  /** After a save the view shows the whole list even while a search term is
      active: with term "b", a new record named "a" appears in the view
      although it does not match. */
  lemma SaveIgnoresActiveSearch()
    ensures var saved := map["name" := Str("a"), "realName" := Str("a"), "universe" := Str("a")];
      Patched(EmptyDraft(), [], saved) == [saved] && SearchView([saved], "b") == []
  {
    var saved := map["name" := Str("a"), "realName" := Str("a"), "universe" := Str("a")];
    assert Lower("a") == "a" && Lower("b") == "b";
    assert TextOf(saved, "name") == "a" && TextOf(saved, "realName") == "a";
    assert TextOf(saved, "universe") == "a";
    assert !Includes("a", "b");
    assert !Matches(saved, "b") && SearchDefined(saved, "b");
    SearchWithoutMatchIsEmpty([saved], "b");
  }
}
