/** What several parts of the model use. */
module Basics {
  datatype Option<T> = None | Some(value: T)

  // What becomes of one transmission.  Lost: not received.  Unheard: received, but its sender does not learn it.
  datatype Attempt = Lost | Unheard | Confirmed

  lemma Rebracket<T>(a: seq<T>, b: seq<T>, c: seq<T>)
    ensures a + b + c == a + (b + c)
  {
  }

  lemma SnocTail<T>(s: seq<T>, x: T)
    requires s != []
    ensures (s + [x])[0] == s[0] && (s + [x])[1..] == s[1..] + [x]
  {
  }

  lemma AppendTail<T>(a: seq<T>, b: seq<T>, n: nat)
    requires n <= |a|
    ensures (a + b)[n..] == a[n..] + b
  {
  }

  lemma HeadTail<T>(s: seq<T>)
    requires s != []
    ensures s == [s[0]] + s[1..]
  {
  }

  lemma AppendHead<T>(a: seq<T>, b: seq<T>)
    requires a != []
    ensures (a + b)[0] == a[0] && (a + b)[1..] == a[1..] + b
  {
  }
}
