/** The comment engine: a first-in first-out queue of viewer comments, and
    the greeting the crate also exports.

    The queue is a value; each operation returns the new queue instead of
    mutating a shared one. */
module Engine {
  import opened Wrappers

  /** Rust's `i32`: the range a comment id is stored in. */
  newtype i32 = x: int | -0x8000_0000 <= x < 0x8000_0000

  /** One queued comment. `id` and `author` are stored but never read by the queue. */
  datatype Comment = Comment(id: i32, author: string, text: string)

  /** The pending comments, oldest first. */
  datatype CommentQueue = CommentQueue(items: seq<Comment>)

  /** The result of taking from the front: the queue that remains, and the
      released text or `None` when there was nothing to release. */
  datatype Popped = Popped(queue: CommentQueue, text: Option<string>)

  /** The texts of `items`, in queue order. */
  function Texts(items: seq<Comment>): (r: seq<string>)
    ensures |r| == |items|
    ensures forall i :: 0 <= i < |items| ==> r[i] == items[i].text
  {
    seq(|items|, i requires 0 <= i < |items| => items[i].text)
  }

  /** A new queue holds no comments. */
  function New(): (r: CommentQueue)
    ensures |r.items| == 0
  {
    CommentQueue([])
  }

  /** Admits a comment at the back; the comments already queued keep their
      positions and order. */
  function AddComment(q: CommentQueue, id: i32, author: string, text: string): (r: CommentQueue)
    ensures |r.items| == |q.items| + 1
    ensures r.items[..|q.items|] == q.items
    ensures r.items[|q.items|] == Comment(id, author, text)
  {
    CommentQueue(q.items + [Comment(id, author, text)])
  }

  /** Takes the oldest comment and releases only its text. On an empty queue
      nothing is released and the queue is left as it was. */
  function PopNextText(q: CommentQueue): (r: Popped)
    ensures r.text.None? <==> |q.items| == 0
    ensures |q.items| == 0 ==> r.queue == q
    ensures |q.items| > 0 ==>
              && r.text == Some(q.items[0].text)
              && [q.items[0]] + r.queue.items == q.items
  {
    if |q.items| == 0 then
      Popped(q, None)
    else
      Popped(CommentQueue(q.items[1..]), Some(q.items[0].text))
  }

  const GreetingPrefix: string := "Hello, "
  const GreetingSuffix: string := "! RustのWasmエンジンからの返答です。"

  /** The greeting for `name`: the fixed prefix, the name verbatim, the fixed suffix. */
  function Greet(name: string): (r: string)
    ensures |r| == |GreetingPrefix| + |name| + |GreetingSuffix|
    ensures r[..|GreetingPrefix|] == GreetingPrefix
    ensures r[|GreetingPrefix|..|r| - |GreetingSuffix|] == name
    ensures r[|r| - |GreetingSuffix|..] == GreetingSuffix
  {
    GreetingPrefix + name + GreetingSuffix
  }
}
