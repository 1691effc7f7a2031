/**
 * The completion picker's cycling index: a non-empty list of candidate
 * transactions and the index `cur` of the one currently applied. Each step
 * reports the pair (previously applied, newly applied) so the caller can
 * undo the first and apply the second. Transactions are opaque values.
 */
module CopilotPicker {
  import opened Wrappers

  class CompletionPicker<T> {
    /** The document text before any candidate was applied. */
    const original: string
    const transactions: seq<T>
    var cur: nat

    ghost predicate Valid()
      reads this
    {
      cur < |transactions|
    }

    constructor (original: string, transactions: seq<T>)
      requires |transactions| > 0
      ensures Valid() && cur == 0
      ensures this.original == original && this.transactions == transactions
    {
      this.original := original;
      this.transactions := transactions;
      cur := 0;
    }

    /**
     * `CopilotCompletionPicker::new`: nothing for an empty list, otherwise a
     * picker on the first candidate together with that candidate.
     */
    static method New(original: string, transactions: seq<T>) returns (r: Option<(CompletionPicker<T>, T)>)
      ensures r.None? <==> |transactions| == 0
      ensures r.Some? ==>
        && fresh(r.value.0) && r.value.0.Valid()
        && r.value.0.cur == 0 && r.value.0.transactions == transactions
        && r.value.0.original == original
        && r.value.1 == transactions[0]
    {
      if |transactions| == 0 {
        return None;
      }
      var first := transactions[0];
      var picker := new CompletionPicker(original, transactions);
      return Some((picker, first));
    }

    /** `next`: on the last candidate nothing happens; otherwise advance and report the swap. */
    method Next() returns (r: Option<(T, T)>)
      requires Valid()
      modifies this
      ensures Valid()
      ensures old(cur) == |transactions| - 1 ==> r.None? && cur == old(cur)
      ensures old(cur) < |transactions| - 1 ==>
        cur == old(cur) + 1 && r == Some((transactions[cur - 1], transactions[cur]))
    {
      if cur == |transactions| - 1 {
        return None;
      }
      cur := cur + 1;
      return Some((transactions[cur - 1], transactions[cur]));
    }

    /** `prev`: on the first candidate nothing happens; otherwise step back and report the swap. */
    method Prev() returns (r: Option<(T, T)>)
      requires Valid()
      modifies this
      ensures Valid()
      ensures old(cur) == 0 ==> r.None? && cur == old(cur)
      ensures old(cur) > 0 ==>
        cur == old(cur) - 1 && r == Some((transactions[cur + 1], transactions[cur]))
    {
      if cur == 0 {
        return None;
      }
      cur := cur - 1;
      return Some((transactions[cur + 1], transactions[cur]));
    }
  }

  /**
   * A successful `next` followed by `prev` comes back to the same candidate,
   * and the second swap is the first one reversed.
   */
  method NextThenPrev<T>(p: CompletionPicker<T>) returns (there: Option<(T, T)>, back: Option<(T, T)>)
    requires p.Valid() && p.cur < |p.transactions| - 1
    modifies p
    ensures p.Valid() && p.cur == old(p.cur)
    ensures there.Some? && back == Some((there.value.1, there.value.0))
  {
    there := p.Next();
    back := p.Prev();
  }
}
