/** The adapter's book (demo/gateway/src/lighter_sim.rs:434-626) keeps the
    matching engine's invariant. */
module AdapterBook {
  import opened OrderBook
  import opened TapeAdapter
  import BookLaws

  /** The adapter never leaves the book's invariant, whatever the tape holds. */
  lemma {:induction false} SteppingKeepsBook(parse: Parser, blockTicks: nat, store: Store, s: Sim, n: nat, s': Sim)
    requires blockTicks > 0 && BookLaws.Inv(s.core.book) && StepsTo(parse, blockTicks, store, s, n, s')
    ensures BookLaws.Inv(s'.core.book)
    decreases n
  {
    hide NextAction;
    hide BookLaws.Inv;
    if n > 0 {
      var a := NextAction(store, s.tick, s.pos).value;
      ActionKeepsBook(parse, blockTicks, s.core, a);
      hide Apply;
      SteppingKeepsBook(parse, blockTicks, store, Step(parse, blockTicks, s, a), n - 1, s');
    }
  }

  lemma ActionKeepsBook(parse: Parser, blockTicks: nat, c: Core, a: Action)
    requires blockTicks > 0 && BookLaws.Inv(c.book) && Legal(a)
    ensures BookLaws.Inv(Apply(parse, blockTicks, c, a).book)
  {
    hide BookLaws.Inv;
    if a.Consume? && a.outcome.Opened? {
      var intent := a.outcome.intent;
      var tx := parse(intent.payload);
      if tx.Some? {
        BookLaws.ExecuteKeepsInv(c.book, intent.account, tx.value, Place(a.tick, a.pos, c.blockCounter));
      }
    }
  }
}
