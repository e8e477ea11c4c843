/** The in-process refresh-token list: a plain array that allows duplicates. */
module Registry {
  import opened Wrappers
  import Seqs

  /** How often `t` occurs in `tokens`. */
  function Count(tokens: seq<string>, t: string): nat {
    multiset(tokens)[t]
  }

  /** `tokens.splice(tokens.findIndex(x => x === t), 1)`, done only when the index
      is not -1: deletes the first occurrence of `t` and keeps the order of the rest. */
  function RemoveFirst(tokens: seq<string>, t: string): (r: seq<string>)
    ensures t !in tokens ==> r == tokens
    ensures t in tokens ==> |r| == |tokens| - 1
    ensures t in tokens ==> exists i :: 0 <= i < |tokens| && tokens[i] == t && t !in tokens[..i] && r == tokens[..i] + tokens[i + 1..]
    ensures multiset(r) == multiset(tokens) - multiset{t}
  {
    match Seqs.FirstIndex(tokens, t)
    case None => tokens
    case Some(i) =>
      assert tokens == tokens[..i] + [t] + tokens[i + 1..];
      tokens[..i] + tokens[i + 1..]
  }

  /** Rotation as the refresh endpoint does it: the first occurrence of `spent`
      goes, `minted` is appended. One occurrence of `spent` is consumed unless the
      new token happens to be the same string. */
  lemma RotationCounts(tokens: seq<string>, spent: string, minted: string)
    requires spent in tokens
    ensures Count(RemoveFirst(tokens, spent) + [minted], spent) == Count(tokens, spent) - 1 + (if minted == spent then 1 else 0)
    ensures minted != spent ==> Count(RemoveFirst(tokens, spent) + [minted], minted) == Count(tokens, minted) + 1
    ensures forall t :: t != spent && t != minted ==> Count(RemoveFirst(tokens, spent) + [minted], t) == Count(tokens, t)
  {
  }
}
