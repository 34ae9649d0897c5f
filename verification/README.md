# Comment queue engine — Dafny model

This project models the engine crate of a live-comment viewer: a queue of
viewer comments that the web front end fills with `add_comment` and drains,
one text at a time, with `pop_next_text`, plus the `greet` function the crate
also exports.

The queue is a plain first-in first-out list. Each comment carries an `id`
(a Rust `i32`), an `author` and a `text`. `add_comment` pushes to the back.
`pop_next_text` removes the front comment and returns only its text, or
`None` when the queue is empty. Neither `id` nor `author` is ever read again
after it is stored, so release order is admission order.

Nothing ranks comments: `id` is stored but never compared.
`QueueLaws.IdDoesNotReorder` admits ids 1, 5, 5 with texts "hello", "world",
"there" and gets them back in that order, then `None`.

Layout:

- `wrappers.dfy`: `Option`, the empty-queue signal.
- `engine.dfy`: module `Engine`, the crate itself. The queue is an immutable
  value (`CommentQueue(items: seq<Comment>)`), and each mutating method
  becomes a function that returns the new queue.
- `queue_laws.dfy`: module `QueueLaws`. `Run` applies a session (a sequence of
  `Admit`/`Release` calls) and records what each release returned. The lemmas
  about sessions are stated over `Run`.
- `greet_laws.dfy`: module `GreetLaws`, the inverse of the greeting and the
  round trip.

## Model

| member | source | states |
|---|---|---|
| Engine.New | crates/engine/src/lib.rs:18-20 | a newly constructed queue holds no comments |
| Engine.AddComment | crates/engine/src/lib.rs:22-25 | the queue grows by one; every comment already queued keeps its position; the new comment, with exactly the given id, author and text, sits at the back |
| Engine.PopNextText | crates/engine/src/lib.rs:27-34 | the result is None exactly when the queue is empty, and then the queue is unchanged; otherwise the result is the front comment's text, and that comment followed by the remaining queue is the old queue |
| Engine.Greet | crates/engine/src/lib.rs:38-40 | the greeting is "Hello, ", then the name verbatim, then "! RustのWasmエンジンからの返答です。", with length equal to the sum of the three |
| QueueLaws.Step | crates/engine/src/lib.rs:22-34 | one add_comment call returns nothing and one pop_next_text call returns exactly one result |
| QueueLaws.Run | crates/engine/src/lib.rs:22-34 | a session produces one result per release call and none per admission |
| QueueLaws.StepPreservesOrder | crates/engine/src/lib.rs:22-34 | one call keeps the order: what it releases, followed by what is then queued, equals what was queued followed by what it admits |
| QueueLaws.RunPreservesOrder | crates/engine/src/lib.rs:22-34 | over any session, the texts released, followed by the texts still queued, equal the texts queued at the start followed by all admitted texts: nothing is lost, duplicated, altered or reordered |
| QueueLaws.RunLength | crates/engine/src/lib.rs:24-31 | queue length plus successful releases equals starting length plus admissions; with no empty-queue releases, n admissions and k releases leave exactly n - k more comments |
| QueueLaws.ReleasedIsPrefixOfAdmitted | crates/engine/src/lib.rs:22-34 | from a new queue, the released texts are always a prefix of the admitted texts, in admission order |
| QueueLaws.RunAppend | crates/engine/src/lib.rs:22-34 | running one session and then another equals running their concatenation; the results are concatenated |
| QueueLaws.RunAdmitAll | crates/engine/src/lib.rs:22-25 | admitting a list of comments appends that list, unchanged and in order, to the queue, and releases nothing |
| QueueLaws.RunReleaseAll | crates/engine/src/lib.rs:27-34 | n releases on a queue of at least n comments return the first n texts in queue order and leave the remaining comments queued |
| QueueLaws.RunReleaseAllOnEmpty | crates/engine/src/lib.rs:28-29 | any number of releases on an empty queue each return None and leave the queue empty |
| QueueLaws.DrainQueue | crates/engine/src/lib.rs:27-34 | releasing once more than a queue holds returns every queued text in queue order, then None, and leaves the queue empty |
| QueueLaws.FifoDrain | crates/engine/src/lib.rs:22-34 | after admitting c1..cn into a new queue, n+1 releases return Some(t1), ..., Some(tn) and then None, whatever the ids and authors, and the queue ends empty |
| QueueLaws.ReleaseEmptyIffAllReleased | crates/engine/src/lib.rs:28-32 | a release returns None if and only if every text queued at the start or admitted so far has already been released |
| QueueLaws.RunIgnoresIdAndAuthor | crates/engine/src/lib.rs:22-34 | two sessions that make the same calls with the same texts, differing only in ids and authors, release the same results and leave the same texts queued |
| QueueLaws.EmptyTextIsReleased | crates/engine/src/lib.rs:23-32 | an admitted empty text is released as Some(""), which is distinct from the empty-queue None |
| QueueLaws.IdDoesNotReorder | crates/engine/src/lib.rs:22-34 | ids 1, 5, 5 with texts "hello", "world", "there" are released in admission order and then None: ids do not rank comments |
| GreetLaws.GreetRoundTrip | crates/engine/src/lib.rs:38-40 | reading the name back from a greeting gives the name verbatim, and a string reads back as a name only if it is that name's greeting |
| GreetLaws.GreetInjective | crates/engine/src/lib.rs:38-40 | two greetings are equal if and only if the names are equal |

## Left out

- The web front end (`apps/web/src/App.tsx`): React rendering, button handlers, and the lazily created global queue and module initialisation. It is presentation and loading plumbing with no queue logic.
- The `wasm_bindgen` attributes and the JavaScript/WebAssembly boundary. This includes how a JavaScript number passed as `id` is converted to `i32`; the model takes `id` already in `i32` range.
- The `Clone` and `Debug` derives on `Comment`. They add no behaviour to the queue.
- Mutation in place: `&mut self` methods are modelled as functions from the old queue to the new one. A single owner calls them, so this is equivalent.
- The cost of `Vec::remove(0)` and running out of memory on `push`. Neither is functional behaviour.
- Priority ordering or any tie-break: the code has neither, and `id` is never compared.
- Speech synthesis, HTTP requests and audio playback. None of these appear in the engine crate.
