/** Outcome types and string splitting shared by the other modules. */
module Common {

  datatype Option<+T> = None | Some(value: T)

  datatype Result<+T, +E> = Ok(value: T) | Err(error: E)

  function Map<T, R>(f: T -> R, s: seq<T>): (r: seq<R>)
    ensures |r| == |s| && forall i | 0 <= i < |s| :: r[i] == f(s[i])
  {
    seq(|s|, i requires 0 <= i < |s| => f(s[i]))
  }

  /** `to_ascii_lowercase`. */
  function LowerChar(c: char): char { if 'A' <= c <= 'Z' then c - 'A' + 'a' else c }

  /** `s.split(d)`. */
  function Split(s: string, d: char): (parts: seq<string>)
    ensures parts != []
  {
    if s == "" then [""]
    else
      var rest := Split(s[1..], d);
      if s[0] == d then [""] + rest else [[s[0]] + rest[0]] + rest[1..]
  }

  lemma {:induction false} SplitOne(b: string, d: char)
    requires d !in b
    ensures Split(b, d) == [b]
  {
    if b != "" {
      assert b[0] in b && b == [b[0]] + b[1..];
      SplitOne(b[1..], d);
    }
  }

  lemma {:induction false} SplitPair(a: string, b: string, d: char)
    requires d !in a && d !in b
    ensures Split(a + [d] + b, d) == [a, b]
  {
    var s := a + [d] + b;
    SplitOne(b, d);
    if a != "" {
      assert a[0] in a && a == [a[0]] + a[1..];
      assert s[0] == a[0] && s[1..] == a[1..] + [d] + b;
      SplitPair(a[1..], b, d);
    } else {
      assert s[0] == d && s[1..] == b;
    }
  }

  /** Two parts are what stands before and after the one `d`; one part is all there is. */
  lemma {:induction false} SplitSound(s: string, d: char)
    ensures |Split(s, d)| == 1 ==> Split(s, d) == [s]
    ensures |Split(s, d)| == 2 ==> s == Split(s, d)[0] + [d] + Split(s, d)[1]
  {
    if s != "" {
      SplitSound(s[1..], d);
      var rest := Split(s[1..], d);
      assert s == [s[0]] + s[1..];
      if |rest| == 2 && s[0] != d {
        assert [s[0]] + (rest[0] + [d] + rest[1]) == ([s[0]] + rest[0]) + [d] + rest[1];
      }
    }
  }
}
