/** `write_slice_head` of `src/misc.rs`: the comment line naming the
    columns of an output file. The writer is modelled as the text written
    to it. */
module Misc {
  import opened Text

  /** The label of the item at 0-based position `k`: its 1-based position
      as a `u16` counter, which wraps around after 65535. */
  function Label(k: nat): (r: nat)
    ensures r < 65536
    ensures k < 65535 ==> r == k + 1
  {
    (k + 1) % 65536
  }

  /** The text written for the item at position `k`: ` {s}_{i}`. */
  function Token(s: string, k: nat): string
  {
    " " + s + "_" + NatToString(Label(k))
  }

  /** The tokens of the items `items[..n]`: one per item, in order. */
  function TokenList(items: seq<string>, n: nat): (r: seq<string>)
    requires n <= |items|
    ensures |r| == n
    ensures forall k :: 0 <= k < n ==> r[k] == Token(items[k], k)
  {
    if n == 0 then [] else TokenList(items, n - 1) + [Token(items[n - 1], n - 1)]
  }

  /** The loop of `write_slice_head`: `#`, the tokens of the items in
      order, a newline. */
  method WriteSliceHead(items: seq<string>) returns (out: string)
    ensures out == "#" + Concat(TokenList(items, |items|)) + "\n"
  {
    out := "#";
    for k := 0 to |items|
      invariant out == "#" + Concat(TokenList(items, k))
    {
      ghost var done := TokenList(items, k);
      assert TokenList(items, k + 1) == done + [Token(items[k], k)];
      assert (done + [Token(items[k], k)])[..k] == done;
      out := out + Token(items[k], k);
    }
    out := out + "\n";
  }
}
