/** Facts about joined sequences. */
module Sequences {

  lemma Regroup<T>(a: seq<T>, b: seq<T>, c: seq<T>, d: seq<T>)
    ensures a + b + c + d == a + (b + (c + d)) == a + b + (c + d) == a + (b + c) + d
    ensures d == [] ==> a + b + c == a + (b + c)
  {
  }

  /** A header and a payload where they stand in a longer sequence. */
  lemma InPlace<T>(before: seq<T>, header: T, payload: seq<T>, rest: seq<T>, after: seq<T>)
    ensures var all := before + ([header] + payload + rest) + after;
      && all == before + [header] + payload + rest + after
      && all[|before|] == header && all[|before| + 1..|before| + 1 + |payload|] == payload
  {
    var all := before + ([header] + payload + rest) + after;
    assert all == before + [header] + payload + rest + after;
  }
}
