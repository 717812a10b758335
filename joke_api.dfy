/**
  The joke directory of the Rust joke service: three constant joke records,
  a table keyed by `u32` id that is rebuilt on every request, and the pure
  content of the three handlers (welcome text, list all, look up by id).
  The HTTP layer and JSON encoding are dropped: a handler returns a
  `Response` value holding the record(s) or the text body.
 */
module JokeApi {

  /** Rust's `u32`. */
  type U32 = x: int | 0 <= x < 0x1_0000_0000

  /** The `Joke` record. */
  datatype Joke = Joke(id: U32, category: string, content: string)

  /** What a handler answers: status 200 with one record, with a list of
      records or with a text body, or status 404 with a text body. */
  datatype Response =
    | Ok(joke: Joke)
    | OkList(jokes: seq<Joke>)
    | OkText(body: string)
    | NotFound(body: string)

  const Joke1: Joke := Joke(1, "Programming",
    "Why do programmers prefer dark mode? Because light attracts bugs!")
  const Joke2: Joke := Joke(2, "Programming",
    "A SQL query walks into a bar, walks up to two tables and asks: 'Can I join you?'")
  const Joke3: Joke := Joke(3, "General",
    "Why did the scarecrow win an award? He was outstanding in his field!")

  /** The records of the directory, in the order they are inserted. */
  const Records: seq<Joke> := [Joke1, Joke2, Joke3]

  const WelcomeText: string :=
    "\U{1F3AD} Welcome to the Rust Joke API! Try /jokes or /joke/1"

  const NotFoundText: string := "Joke not found! Try IDs 1-3"

  // ---------------------------------------------------------------------
  // The table: a map from id to record
  // ---------------------------------------------------------------------

  /** The table that indexes `rs` by each record's own `id`, inserting the
      records one after another (a later record with the same id wins). */
  function IndexById(rs: seq<Joke>): map<U32, Joke>
  {
    if rs == [] then map[]
    else IndexById(rs[..|rs| - 1])[rs[|rs| - 1].id := rs[|rs| - 1]]
  }

  /** No two records share an id. */
  predicate DistinctIds(rs: seq<Joke>)
  {
    forall i, j :: 0 <= i < j < |rs| ==> rs[i].id != rs[j].id
  }

  /** Every entry of `m` is stored under its record's own id. */
  predicate KeyedById(m: map<U32, Joke>)
  {
    forall k :: k in m ==> m[k].id == k
  }

  /** The directory every handler works on. */
  function Directory(): map<U32, Joke>
  {
    IndexById(Records)
  }

  /** The keys of `IndexById(rs)` are exactly the ids occurring in `rs`. */
  lemma {:induction false} IndexByIdKeys(rs: seq<Joke>)
    ensures forall k :: k in IndexById(rs) <==> exists i :: 0 <= i < |rs| && rs[i].id == k
  {
    if rs != [] {
      var init := rs[..|rs| - 1];
      IndexByIdKeys(init);
      forall k | exists i :: 0 <= i < |rs| && rs[i].id == k
        ensures k in IndexById(rs)
      {
        var i :| 0 <= i < |rs| && rs[i].id == k;
        if i < |rs| - 1 {
          assert init[i].id == k;
        }
      }
      forall k | k in IndexById(rs)
        ensures exists i :: 0 <= i < |rs| && rs[i].id == k
      {
        if k != rs[|rs| - 1].id {
          assert k in IndexById(init);
          var i :| 0 <= i < |init| && init[i].id == k;
          assert rs[i].id == k;
        }
      }
    }
  }

  /** Indexing by id always stores a record under its own id. */
  lemma {:induction false} IndexByIdKeyedById(rs: seq<Joke>)
    ensures KeyedById(IndexById(rs))
  {
    if rs != [] {
      IndexByIdKeyedById(rs[..|rs| - 1]);
    }
  }

  /** When ids are distinct, every record is found under its id. */
  lemma {:induction false} IndexByIdFinds(rs: seq<Joke>, i: nat)
    requires DistinctIds(rs)
    requires i < |rs|
    ensures rs[i].id in IndexById(rs) && IndexById(rs)[rs[i].id] == rs[i]
  {
    var last := |rs| - 1;
    if i < last {
      var init := rs[..last];
      assert DistinctIds(init) by {
        forall a, b | 0 <= a < b < |init| ensures init[a].id != init[b].id {
          assert init[a] == rs[a] && init[b] == rs[b];
        }
      }
      assert init[i] == rs[i];
      IndexByIdFinds(init, i);
      assert rs[i].id != rs[last].id;
    }
  }

  /** `get_jokes`: a fresh table filled by three successive inserts under
      the literal keys 1, 2 and 3. It is the table indexing the three
      records by their own ids. */
  method GetJokes() returns (jokes: map<U32, Joke>)
    ensures jokes == Directory()
  {
    jokes := map[];
    jokes := jokes[1 := Joke1];
    jokes := jokes[2 := Joke2];
    jokes := jokes[3 := Joke3];
    DirectoryInserts();
  }

  /** Indexing the records by id is the same as inserting them one by one
      under the keys 1, 2 and 3. */
  lemma DirectoryInserts()
    ensures Directory() == map[1 := Joke1, 2 := Joke2, 3 := Joke3]
  {
    assert Records[..2] == [Joke1, Joke2];
    assert [Joke1, Joke2][..1] == [Joke1];
    assert [Joke1][..0] == [];
    assert IndexById([Joke1]) == map[1 := Joke1];
    assert IndexById([Joke1, Joke2]) == map[1 := Joke1, 2 := Joke2];
  }

  /** The table has exactly the keys 1, 2 and 3. */
  lemma DirectoryKeys()
    ensures Directory().Keys == {1, 2, 3}
    ensures |Directory()| == 3
  {
    IndexByIdKeys(Records);
    assert Records[0].id == 1 && Records[1].id == 2 && Records[2].id == 3;
    assert Directory().Keys == {1, 2, 3};
  }

  /** Every record of the table carries the id it is stored under. */
  lemma DirectoryKeyedById()
    ensures KeyedById(Directory())
  {
    IndexByIdKeyedById(Records);
  }

  /** The three stored records are exactly the literals of the source. */
  lemma DirectoryRecords()
    ensures DistinctIds(Records)
    ensures forall i :: 0 <= i < |Records| ==>
      Records[i].id in Directory() && Directory()[Records[i].id] == Records[i]
    ensures 1 in Directory() && 2 in Directory() && 3 in Directory()
    ensures Directory()[1] == Joke(1, "Programming",
      "Why do programmers prefer dark mode? Because light attracts bugs!")
    ensures Directory()[2] == Joke(2, "Programming",
      "A SQL query walks into a bar, walks up to two tables and asks: 'Can I join you?'")
    ensures Directory()[3] == Joke(3, "General",
      "Why did the scarecrow win an award? He was outstanding in his field!")
  {
    assert DistinctIds(Records);
    forall i | 0 <= i < |Records|
      ensures Records[i].id in Directory() && Directory()[Records[i].id] == Records[i]
    {
      IndexByIdFinds(Records, i);
    }
    assert Records[0].id == 1 && Records[1].id == 2 && Records[2].id == 3;
  }

  // ---------------------------------------------------------------------
  // The handlers
  // ---------------------------------------------------------------------

  /** `hello`: the welcome text, with status 200. It takes no input and
      reads no state, so every call answers the same. */
  function Hello(): (r: Response)
    ensures r.OkText? && |r.body| > 0
    ensures r.body == "\U{1F3AD} Welcome to the Rust Joke API! Try /jokes or /joke/1"
  {
    OkText(WelcomeText)
  }

  /** `get_joke_by_id`: look the id up in a freshly built table. The
      lookup succeeds exactly for the ids 1, 2 and 3 and then answers the
      record carrying that id; any other id answers 404 with a fixed hint. */
  function GetJokeById(jokeId: U32): (r: Response)
    ensures r.Ok? <==> jokeId in {1, 2, 3}
    ensures r.Ok? ==> r.joke.id == jokeId && r.joke == Records[jokeId - 1]
    ensures !r.Ok? ==> r == NotFound("Joke not found! Try IDs 1-3")
  {
    DirectoryKeys();
    DirectoryRecords();
    var jokes := Directory();
    if jokeId in jokes then Ok(jokes[jokeId]) else NotFound(NotFoundText)
  }

  /** `vs` lists the values of `m` along the key sequence `ks`, which
      visits no key twice. */
  ghost predicate ListsValues(m: map<U32, Joke>, ks: seq<U32>, vs: seq<Joke>)
  {
    && |vs| == |ks|
    && (forall i :: 0 <= i < |ks| ==> ks[i] in m && vs[i] == m[ks[i]])
    && (forall i, j :: 0 <= i < j < |ks| ==> ks[i] != ks[j])
  }

  /** `vs` holds the values of `m`, one per key, in some order of the keys:
      as many entries as keys, taken under distinct keys. */
  ghost predicate IsValuesOf(m: map<U32, Joke>, vs: seq<Joke>)
  {
    |vs| == |m| && exists ks :: ListsValues(m, ks, vs)
  }

  /** `values().collect()` on a hash map: one value per key, in an order the
      hash map chooses. The next key is picked arbitrarily, so the
      contract holds for every order. */
  method CollectValues(m: map<U32, Joke>) returns (vs: seq<Joke>)
    ensures IsValuesOf(m, vs)
  {
    var rest := m.Keys;
    vs := [];
    ghost var ks: seq<U32> := [];
    while rest != {}
      invariant rest <= m.Keys
      invariant ListsValues(m, ks, vs)
      invariant forall k :: k in m ==> (k in ks <==> k !in rest)
      invariant |ks| + |rest| == |m|
      decreases rest
    {
      var k :| k in rest;
      vs := vs + [m[k]];
      ks := ks + [k];
      rest := rest - {k};
    }
    assert ListsValues(m, ks, vs);
  }

  /** `get_all_jokes`: the values of a freshly built table, with status 200.
      The list has three records with distinct ids and is a permutation of
      the records; which permutation is left open. */
  method GetAllJokes() returns (r: Response)
    ensures r.OkList? && IsValuesOf(Directory(), r.jokes)
    ensures |r.jokes| == 3 && DistinctIds(r.jokes)
    ensures multiset(r.jokes) == multiset(Records)
  {
    var jokes := GetJokes();
    var vs := CollectValues(jokes);
    DirectoryValues(vs);
    r := OkList(vs);
  }

  /** Any listing of the table's values has three records with distinct ids
      and holds each record once: two listings differ at most in order. */
  lemma DirectoryValues(vs: seq<Joke>)
    requires IsValuesOf(Directory(), vs)
    ensures |vs| == 3 && DistinctIds(vs)
    ensures forall i :: 0 <= i < 3 ==> vs[i].id in {1, 2, 3} && vs[i] == Records[vs[i].id - 1]
    ensures multiset(vs) == multiset(Records)
  {
    DirectoryKeys();
    DirectoryKeyedById();
    DirectoryRecords();
    assert Records == [Directory()[1], Directory()[2], Directory()[3]];
    ValuesOfThreeKeys(Directory(), vs);
  }

  /** A listing of the values of an id-keyed table with the keys 1, 2 and 3
      has distinct ids and is a permutation of the values in key order. */
  lemma ValuesOfThreeKeys(m: map<U32, Joke>, vs: seq<Joke>)
    requires m.Keys == {1, 2, 3} && KeyedById(m)
    requires IsValuesOf(m, vs)
    ensures |vs| == 3 && DistinctIds(vs)
    ensures forall i :: 0 <= i < 3 ==> vs[i].id in {1, 2, 3} && vs[i] == [m[1], m[2], m[3]][vs[i].id - 1]
    ensures multiset(vs) == multiset([m[1], m[2], m[3]])
  {
    var ks :| ListsValues(m, ks, vs);
    var s := [m[1], m[2], m[3]];
    assert |ks| == 3;
    forall i | 0 <= i < 3
      ensures 1 <= ks[i] <= 3 && vs[i].id == ks[i] && vs[i] == s[ks[i] - 1]
    {
      assert ks[i] in m.Keys;
    }
    assert ks[0] != ks[1] && ks[0] != ks[2] && ks[1] != ks[2];
    ReorderedThree(s, vs, ks[0] - 1, ks[1] - 1, ks[2] - 1);
  }

  /** The multiset of a three-element sequence, element by element. */
  lemma MultisetOfThree<T>(t: seq<T>)
    requires |t| == 3
    ensures multiset(t) == multiset{t[0]} + multiset{t[1]} + multiset{t[2]}
  {
    assert t == [t[0]] + [t[1]] + [t[2]];
  }

  /** A sequence that lists the three elements of `s` at three distinct
      positions is a permutation of `s`. */
  lemma ReorderedThree<T>(s: seq<T>, t: seq<T>, a: int, b: int, c: int)
    requires |s| == 3 && |t| == 3
    requires 0 <= a < 3 && 0 <= b < 3 && 0 <= c < 3
    requires a != b && a != c && b != c
    requires t[0] == s[a] && t[1] == s[b] && t[2] == s[c]
    ensures multiset(t) == multiset(s)
  {
    MultisetOfThree(t);
    MultisetOfThree(s);
  }
}
