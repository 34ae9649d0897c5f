/** The greeting is a fixed frame around the name, so the name can be read
    back from any greeting: `Greet` is injective and has an exact inverse. */
module GreetLaws {
  import opened Wrappers
  import opened Engine

  /** The name inside a greeting, or `None` when `s` does not carry the
      greeting's prefix and suffix. */
  function GreetedName(s: string): (r: Option<string>)
  {
    if |s| >= |GreetingPrefix| + |GreetingSuffix|
       && s[..|GreetingPrefix|] == GreetingPrefix
       && s[|s| - |GreetingSuffix|..] == GreetingSuffix
    then Some(s[|GreetingPrefix|..|s| - |GreetingSuffix|])
    else None
  }

  /** Reading the name back from a greeting returns the name verbatim, and a
      string reads back as `name` only if it is exactly `name`'s greeting. */
  lemma GreetRoundTrip(name: string, s: string)
    ensures GreetedName(Greet(name)) == Some(name)
    ensures GreetedName(s) == Some(name) ==> Greet(name) == s
  {
    if GreetedName(s) == Some(name) {
      var p, k := |GreetingPrefix|, |s| - |GreetingSuffix|;
      assert s == s[..p] + s[p..k] + s[k..];
    }
  }

  /** Different names give different greetings. */
  lemma GreetInjective(a: string, b: string)
    ensures Greet(a) == Greet(b) <==> a == b
  {
    GreetRoundTrip(a, Greet(b));
  }
}
