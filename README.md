# Joke directory and console demo, modelled in Dafny

This project models the two small Rust programs of the repository.

**`joke_api`** is a joke service. The module `JokeApi` (`joke_api.dfy`) models:

- the `Joke` record and its three constant entries;
- `get_jokes`, which builds a fresh `HashMap<u32, Joke>` with three successive inserts under the literal keys 1, 2 and 3;
- the content of the three handlers:
  - `hello`, the welcome text;
  - `get_all_jokes`, every value of the table;
  - `get_joke_by_id`, a lookup that either finds a record or answers 404 with a fixed hint.

A handler's answer is a `Response` value: `Ok(joke)`, `OkList(jokes)`, `OkText(body)` or `NotFound(body)`. The HTTP status and the JSON encoding are left out.

`get_jokes` is a method. Its contract says that the map it builds equals `Directory()`, the table that indexes the three records by their own `id` field (`IndexById`). So the literal keys of the inserts agree with the records' ids. The lemmas about `IndexById` and `Directory` then give:

- the key set {1, 2, 3};
- every record stored under its own id;
- the exact literals.

`get_joke_by_id` is a function of `Directory()`; `hello` is a constant. Neither takes state, so repeated or interleaved calls give the same answer.

`get_all_jokes` does not sort: it collects `HashMap::values()`, whose iteration order is unspecified, and the model follows the code. `CollectValues` models it with a loop that picks the next key arbitrarily (`:|`), so its contract holds for every order. It promises one value per key, taken under distinct keys, as many values as keys (`IsValuesOf`). `GetAllJokes` turns this into:

- three records;
- distinct ids;
- the same multiset as the three records.

Two calls may list the records in different orders, but always list the same records.

**`hello_rust`** is a console demo. The module `HelloRust` (`hello_rust.dfy`) models:

- `add_numbers` on `i32`. The machine addition is written out as two's-complement wrap-around (`I32Add`). The caller must keep the sum in range.
- the values `main` computes: the counter after its single increment, the sum 5 + 3, and which arm of the `if` is taken (`Run`).

## Model

| member | source | states |
|---|---|---|
| `JokeApi.GetJokes` | joke_api/src/main.rs:13-31 | the table filled by the three inserts equals the three records indexed by their own `id` |
| `JokeApi.DirectoryInserts` | joke_api/src/main.rs:14-30 | indexing the records by id gives the same map as inserting them under the literal keys 1, 2, 3 |
| `JokeApi.IndexByIdKeys` | joke_api/src/main.rs:13-31 | a key is in the id-indexed table exactly when some record carries that id |
| `JokeApi.IndexByIdKeyedById` | joke_api/src/main.rs:15-29 | every entry of an id-indexed table is stored under its record's own id |
| `JokeApi.IndexByIdFinds` | joke_api/src/main.rs:15-29 | with distinct ids, every record is found under its id |
| `JokeApi.DirectoryKeys` | joke_api/src/main.rs:13-31 | the table has exactly the keys {1, 2, 3}, hence three entries |
| `JokeApi.DirectoryKeyedById` | joke_api/src/main.rs:15-29 | for every key k, the stored record's `id` is k |
| `JokeApi.DirectoryRecords` | joke_api/src/main.rs:15-28 | the ids are distinct, every record is stored under its id, and the entries under 1, 2 and 3 are exactly the source's literals |
| `JokeApi.Hello` | joke_api/src/main.rs:33-35 | always a 200 text answer whose body is the fixed, non-empty welcome text |
| `JokeApi.GetJokeById` | joke_api/src/main.rs:43-50 | for every `u32` id: the lookup succeeds if and only if the id is 1, 2 or 3, and then answers the record whose `id` is the requested one; every other id answers 404 with body "Joke not found! Try IDs 1-3" |
| `JokeApi.CollectValues` | joke_api/src/main.rs:39 | whatever order the map picks, the list holds one value per key, under distinct keys, as many values as keys |
| `JokeApi.GetAllJokes` | joke_api/src/main.rs:37-41 | a 200 list of the table's values: three records, distinct ids, a permutation of the three records |
| `JokeApi.DirectoryValues` | joke_api/src/main.rs:38-40 | any listing of the table's values has three records with distinct ids in {1, 2, 3}, each the record of its id, and the same multiset as the records |
| `JokeApi.ValuesOfThreeKeys` | joke_api/src/main.rs:39 | a listing of an id-keyed table with keys {1, 2, 3} is a permutation of its values in key order, with distinct ids |
| `HelloRust.I32Add` | hello_rust/src/main.rs:28 | the `i32` sum differs from the exact sum by a multiple of 2^32 |
| `HelloRust.I32AddExact` | hello_rust/src/main.rs:27-29 | without overflow the `i32` sum is the exact sum |
| `HelloRust.AddNumbers` | hello_rust/src/main.rs:27-29 | when the sum fits in `i32`, `add_numbers(a, b)` is the exact sum a + b |
| `HelloRust.AddNumbersCommutes` | hello_rust/src/main.rs:28 | `add_numbers(a, b) == add_numbers(b, a)` within the `i32` range |
| `HelloRust.Run` | hello_rust/src/main.rs:10-23 | the counter ends at 1, the result is `add_numbers(5, 3)` = 8, and the "greater than 5" arm is taken |

## Left out

- The actix-web server: `HttpServer::new`, route registration, binding to 127.0.0.1:8080 and the event loop (joke_api/src/main.rs:53-70). This is network I/O and framework dispatch.
- Path parsing by `web::Path<u32>`: the framework rejects a non-numeric segment before the handler runs. The model takes a `u32` id.
- JSON serialisation (`#[derive(Serialize)]`, `.json(...)`): the model returns the record values themselves.
- `HttpResponse` and the numeric status codes: only the distinction between 200 with a record, a list or text, and 404 with text is kept.
- Every `println!` in both programs, including the greeting built from the binding `name` in hello_rust/src/main.rs:6-7: console output.
- Concurrency between actix worker threads: there is no shared mutable state, and every handler builds its own table.
- `HashMap::insert` returns the previous value; `get_jokes` ignores it, and it is not modelled.
- `HelloRust.AddNumbers`: overflow is excluded by its precondition. The model does not choose between Rust's debug-build panic and its release-build wrap-around. `I32Add` gives the wrap-around value.
