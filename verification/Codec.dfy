/** The Wirehair codec: encoder, decoder, and the round trip between them (src/fec/Wirehair.cpp). */
module Codec {
  import opened ColumnIterator
  import opened CheckMatrix
  import opened PeelState
  import opened PeelOutcome
  import opened Blocks
  import opened GaloisField
  import opened Peeling
  import opened Compressing
  import opened Triangle
  import opened CheckSystem
  import opened RowSums
  import opened Recovery
  import opened Failure
  import opened Compression
  import opened Staging
  import opened Solver

  datatype Status = Success | NeedMore | BadPeelSeed

  /** What both sides agree on: parameters, field, seeded streams, what each row id draws, and the bytes of the last
      block. */
  datatype Agreement = Agreement(pr: Params, f: Tables, seeds: Seeds, draws: nat -> Draw, finalBytes: nat) {
    ghost predicate Valid() { pr.Valid() && IsField(f) }
  }

  function GenOf(ag: Agreement, id: nat): (g: RowGen)
    requires ag.Valid()
    ensures RowOk(ag.pr, g)
  {
    RowFor(ag.pr, ag.draws(id))
  }

  ghost function GensOf(ag: Agreement, ids: seq<nat>): (gens: seq<RowGen>)
    requires ag.Valid()
    ensures |gens| == |ids|
  {
    seq(|ids|, i requires 0 <= i < |ids| => GenOf(ag, ids[i]))
  }

  ghost function OriginalIds(n: nat): (ids: seq<nat>)
    ensures |ids| == n && forall i :: 0 <= i < n ==> ids[i] == i
  {
    if n == 0 then [] else OriginalIds(n - 1) + [n - 1]
  }

  /** A block cut to its first bytes and zero-padded. */
  function Trim(x: Block, bytes: nat): Block {
    seq(BLOCK_BYTES, i requires 0 <= i < BLOCK_BYTES => if i < bytes then x[i] else ZERO)
  }

  /** A message of n blocks, the last one holding finalBytes bytes, and the recovery blocks an encoder made of it. */
  ghost predicate Encoded(ag: Agreement, message: seq<Block>, recovery: seq<Block>) {
    && ag.Valid() && |message| == ag.pr.n && message[ag.pr.n - 1] == Trim(message[ag.pr.n - 1], ag.finalBytes)
    && Unique(ag.pr, ag.f, ag.seeds, GensOf(ag, OriginalIds(ag.pr.n)), message, recovery)
  }

  /** The block with a given id: a message block, or a row regenerated from the recovery blocks. */
  ghost function BlockOf(ag: Agreement, message: seq<Block>, recovery: seq<Block>, id: nat): Block
    requires ag.Valid() && |message| == ag.pr.n && |recovery| == ag.pr.n + ag.pr.M()
  {
    if id < ag.pr.n then message[id] else Dot(RowVec(ag.pr, GenOf(ag, id)), recovery, ag.pr.n + ag.pr.M())
  }

  /** Every block, message block or not, is the sum its row selects from the recovery blocks. */
  lemma EveryBlockIsItsRow(ag: Agreement, message: seq<Block>, recovery: seq<Block>, id: nat)
    requires Encoded(ag, message, recovery)
    ensures BlockOf(ag, message, recovery, id) == Dot(RowVec(ag.pr, GenOf(ag, id)), recovery, ag.pr.n + ag.pr.M())
  {
    hide Dot, RowVec, Params.Valid, IsField, RowOk, Trim;
    assert Satisfied(ag.pr, ag.f, ag.seeds, GensOf(ag, OriginalIds(ag.pr.n)), message, recovery);
    if id < ag.pr.n {
      assert GensOf(ag, OriginalIds(ag.pr.n))[id] == GenOf(ag, id);
    }
  }

  /** The encoder's recovery blocks satisfy the decoder's equations, whichever block ids it was fed. */
  lemma EncoderSatisfies(ag: Agreement, message: seq<Block>, recovery: seq<Block>, ids: seq<nat>, inputs: seq<Block>)
    requires Encoded(ag, message, recovery) && |ids| == |inputs| == ag.pr.n
    requires forall r :: 0 <= r < ag.pr.n ==> inputs[r] == BlockOf(ag, message, recovery, ids[r])
    ensures Satisfied(ag.pr, ag.f, ag.seeds, GensOf(ag, ids), inputs, recovery)
  {
    hide Dot, RowVec, Params.Valid, IsField, RowOk, Trim, BlockOf;
    assert Satisfied(ag.pr, ag.f, ag.seeds, GensOf(ag, OriginalIds(ag.pr.n)), message, recovery);
    forall r | 0 <= r < ag.pr.n
      ensures Dot(RowVec(ag.pr, GensOf(ag, ids)[r]), recovery, ag.pr.n + ag.pr.M()) == inputs[r]
    {
      EveryBlockIsItsRow(ag, message, recovery, ids[r]);
    }
  }

  /** Round trip: n correct blocks of any ids, if they determine a solution at all, determine the encoder's. */
  lemma SameRecovery(ag: Agreement, message: seq<Block>, recovery: seq<Block>, ids: seq<nat>, inputs: seq<Block>,
                     decoded: seq<Block>)
    requires Encoded(ag, message, recovery) && |ids| == |inputs| == ag.pr.n
    requires forall r :: 0 <= r < ag.pr.n ==> inputs[r] == BlockOf(ag, message, recovery, ids[r])
    requires Unique(ag.pr, ag.f, ag.seeds, GensOf(ag, ids), inputs, decoded)
    ensures decoded == recovery
  {
    hide Satisfied, Params.Valid, IsField, RowOk, Trim, BlockOf;
    EncoderSatisfies(ag, message, recovery, ids, inputs);
  }

  /** The first rows of the workspace are the rows the ids generate. */
  ghost predicate FedRows(ag: Agreement, rows: seq<PeelRow>, ids: seq<nat>) {
    && ag.Valid() && |ids| <= |rows|
    && (forall r :: 0 <= r < |ids| ==> rows[r].id == ids[r] && rows[r].gen == GenOf(ag, ids[r]))
  }

  lemma FedNext(ag: Agreement, rows: seq<PeelRow>, rows': seq<PeelRow>, ids: seq<nat>, id: nat)
    requires FedRows(ag, rows, ids) && |ids| < |rows'| == |rows|
    requires forall r :: 0 <= r < |ids| ==> rows'[r].gen == rows[r].gen && rows'[r].id == rows[r].id
    ensures FedRows(ag, rows', ids)
    ensures rows'[|ids|].id == id && rows'[|ids|].gen == RowFor(ag.pr, ag.draws(id)) ==> FedRows(ag, rows', ids + [id])
  {
    hide IsField, RowFor;
  }

  lemma IdleRows(peel: Peeler)
    requires peel.Idle()
    ensures |peel.rows| == peel.capacity
  {}

  lemma FedGens(ag: Agreement, rows: seq<PeelRow>, ids: seq<nat>, gens: seq<RowGen>)
    requires FedRows(ag, rows, ids) && |gens| == |ids|
    requires forall r :: 0 <= r < |gens| ==> r < |rows| && gens[r] == rows[r].gen
    ensures gens == GensOf(ag, ids)
  {}

  class Encoder {
    const ag: Agreement
    const peel: Peeler
    var inputs: seq<Block>
    var recovery: seq<Block>

    /** InitializeEncoder: no extra rows. */
    constructor (ag: Agreement)
      requires ag.Valid()
      ensures this.ag == ag && fresh(peel) && Fed(0)
    {
      this.ag := ag;
      peel := new Peeler(ag.pr, ag.pr.n);
      inputs, recovery := [], [];
    }

    /** The first k message rows have been fed to the peeler. */
    ghost predicate Fed(k: nat)
      reads this, peel
    {
      && ag.Valid() && peel.pr == ag.pr && peel.capacity == ag.pr.n
      && peel.Idle() && peel.deferCols == [] && |peel.colsOf| == k <= ag.pr.n
      && FedRows(ag, peel.rows, OriginalIds(k))
    }

    /** Feeds the whole message and solves for the recovery blocks, whatever their memory (workspace) holds before. */
    method EncodeFeed(message: seq<Block>, workspace: seq<Block>) returns (status: Status)
      requires Fed(0) && |message| == ag.pr.n && |workspace| == ag.pr.n + ag.pr.M() + 1
      modifies this, peel
      ensures status == Success ==>
                inputs == message && Unique(ag.pr, ag.f, ag.seeds, GensOf(ag, OriginalIds(ag.pr.n)), message, recovery)
      ensures status == Success ==> ag.Valid() && message[ag.pr.n - 1] == Trim(message[ag.pr.n - 1], ag.finalBytes) ==>
                Encoded(ag, message, recovery)
    {
      hide Params.Valid, IsField, Trim, Unique, RowOk, Peeler.Idle, RowFor, FedRows, GensOf, Finished, Undetermined,
           OutcomeOk, SameIds, Spent, GraphOf, RowsHold, StageOf;
      inputs := message;
      for id := 0 to ag.pr.n
        invariant Fed(id) && inputs == message
        modifies peel
      {
        ghost var rows := peel.rows;
        IdleRows(peel);
        var ok := peel.OpportunisticPeeling(id, id, ag.draws(id));
        if !ok {
          return BadPeelSeed;
        }
        IdleRows(peel);
        FedNext(ag, rows, peel.rows, OriginalIds(id), id);
      }
      ghost var rows := peel.rows;
      var r, elim;
      ghost var oc, held;
      r, elim, oc, held := SolveMatrix(peel, ag.f, ag.seeds, inputs, 0, workspace, false, Outcome([], [], [], [], []));
      if r != Win {
        return BadPeelSeed;
      }
      FedGens(ag, rows, OriginalIds(ag.pr.n), oc.gens);
      GenerateRecoveryBlocks(elim, ag.seeds, oc, message, held, false);
      recovery := elim.comp.recovery[..ag.pr.n + ag.pr.M()];
      return Success;
    }

    /** The block with a given id: message blocks are copied, others regenerated. */
    method Encode(id: nat) returns (block: Block)
      requires Encoded(ag, inputs, recovery)
      ensures block == BlockOf(ag, inputs, recovery, id)
      ensures block == Dot(RowVec(ag.pr, GenOf(ag, id)), recovery, ag.pr.n + ag.pr.M())
    {
      hide Dot, RowVec, Params.Valid, IsField, Trim;
      EveryBlockIsItsRow(ag, inputs, recovery, id);
      if id < ag.pr.n {
        if id == ag.pr.n - 1 {
          block := Trim(inputs[id], ag.finalBytes);
        } else {
          block := inputs[id];
        }
      } else {
        block := RegenerateRow(ag.pr, GenOf(ag, id), recovery);
      }
    }
  }

  class Decoder {
    const ag: Agreement
    const peel: Peeler
    var inputs: seq<Block>
    var recovery: seq<Block>
    var rowCount: nat
    var allOriginal: bool
    ghost var ids: seq<nat>
    ghost var outcome: Outcome  // of the first peeling

    /** InitializeDecoder */
    constructor (ag: Agreement)
      requires ag.Valid()
      ensures this.ag == ag && fresh(peel) && Feeding() && ids == [] && inputs == []
    {
      this.ag := ag;
      peel := new Peeler(ag.pr, ag.pr.n + CAT_MAX_EXTRA_ROWS);
      inputs, recovery, ids := [], [], [];
      rowCount, allOriginal := 0, true;
      outcome := Outcome([], [], [], [], []);
    }

    /** The accepted blocks and their rows, before anything is solved. */
    ghost predicate Feeding()
      reads this, peel
    {
      && Stored() && peel.Idle() && peel.deferCols == [] && |peel.colsOf| == rowCount && FedRows(ag, peel.rows, ids)
      && (allOriginal ==> forall r :: 0 <= r < rowCount ==> ids[r] < ag.pr.n)
    }

    /** A solve has failed: the n stored rows are singular, and peeling has run. */
    ghost predicate Stalled()
      reads this, peel
    {
      && Stored() && rowCount == ag.pr.n && Spent(peel, outcome, inputs) && outcome.gens == GensOf(ag, ids)
      && Undetermined(ag.pr, ag.f, ag.seeds, outcome, inputs, CAT_MAX_EXTRA_ROWS)
      && !(allOriginal && forall i :: 0 <= i < ag.pr.n ==> i in ids)
    }

    ghost predicate Stored()
      reads this, peel
    {
      && ag.Valid() && peel.pr == ag.pr && peel.capacity == ag.pr.n + CAT_MAX_EXTRA_ROWS
      && rowCount == |ids| == |inputs| <= ag.pr.n && rowCount <= |peel.rows|
      && forall r :: 0 <= r < rowCount ==> peel.rows[r].id == ids[r]
    }

    /** Stores one block; asks for more until n have been stored. A block whose row finds a full reference list is
        dropped, and so is every block after the n-th. */
    method DecodeFeed(id: nat, block: Block) returns (status: Status)
      requires Feeding() || (Stored() && rowCount == ag.pr.n)
      modifies this, peel
      ensures old(Feeding()) ==> Feeding()
      ensures old(rowCount) == ag.pr.n ==> unchanged(this) && unchanged(peel)
      ensures status == (if rowCount == ag.pr.n then Success else NeedMore)
      ensures (ids == old(ids) && inputs == old(inputs)) ||
              (ids == old(ids) + [id]
               && inputs == old(inputs) + [if id == ag.pr.n - 1 then Trim(block, ag.finalBytes) else block])
      ensures old(rowCount) < ag.pr.n ==>
                (ids == old(ids) <==>
                   exists c :: c in PeelCols(ag.pr, GenOf(ag, id)) && c < ag.pr.n
                               && |old(peel.refs)[c]| >= CAT_REF_LIST_MAX)
    {
      hide Params.Valid, IsField, Trim, RowOk, Peeler.Idle, RowFor, FedRows;
      if rowCount < ag.pr.n {
        if id >= ag.pr.n {
          allOriginal := false;
        }
        ghost var rows := peel.rows;
        IdleRows(peel);
        var ok := peel.OpportunisticPeeling(rowCount, id, ag.draws(id));
        IdleRows(peel);
        FedNext(ag, rows, peel.rows, ids, id);
        if ok {
          inputs := inputs + [if id == ag.pr.n - 1 then Trim(block, ag.finalBytes) else block];
          ids := ids + [id];
          rowCount := rowCount + 1;
          if rowCount == ag.pr.n {
            return Success;
          }
        }
        return NeedMore;
      }
      return Success;
    }

    /** All n stored blocks are message blocks, and no two are the same. */
    method IsAllOriginalData() returns (all: bool)
      requires Stored()
      ensures all <==> forall i :: 0 <= i < ag.pr.n ==> i in ids
    {
      hide Params.Valid, IsField, GenOf;
      var copied := seq(ag.pr.n, _ => false);
      var seen := 0;
      TruesNone(copied, ag.pr.n);
      for r := 0 to rowCount
        invariant |copied| == ag.pr.n
        invariant forall i :: 0 <= i < ag.pr.n ==> (copied[i] <==> i in ids[..r])
        invariant seen == Trues(copied, ag.pr.n)
      {
        var id := peel.rows[r].id;
        assert ids[..r + 1] == ids[..r] + [id];
        if id < ag.pr.n {
          if !copied[id] {
            TruesSet(copied, id, ag.pr.n);
            copied := copied[id := true];
            seen := seen + 1;
          }
        }
      }
      assert ids[..rowCount] == ids;
      all := seen >= ag.pr.n;
      TruesAll(copied, ag.pr.n);
    }

    /** What a successful solve leaves: either every message block was stored, or the recovery blocks are determined. */
    ghost predicate Decoded()
      reads this, peel
    {
      && Stored() && rowCount == ag.pr.n
      && ((forall i :: 0 <= i < ag.pr.n ==> i in ids)
          || Unique(ag.pr, ag.f, ag.seeds, GensOf(ag, ids), inputs, recovery))
    }

    /** Solves once n blocks are stored, whatever the recovery blocks' memory holds. After a failure it solves what is
        left of the same rows' system: it must fail again, as the rows are no better determined, and does so exactly
        when the matrix that is left is singular, as it is if no column was deferred. A success then is wrong; of its
        blocks only the peeled rows are known to hold. */
    method DecodeSolve(workspace: seq<Block>) returns (status: Status)
      requires Feeding() || (Stalled() && |outcome.deferCols| <= CAT_MAX_EXTRA_ROWS + 1)
      requires |workspace| == ag.pr.n + ag.pr.M() + 1
      modifies this, peel
      ensures ids == old(ids) && inputs == old(inputs) && rowCount == old(rowCount) && status != BadPeelSeed
      ensures old(rowCount) < ag.pr.n ==> status == NeedMore
      ensures old(Feeding()) && old(rowCount) == ag.pr.n ==>
                (status == Success <==>
                   (old(allOriginal) && forall i :: 0 <= i < ag.pr.n ==> i in ids) || Determined(ag, ids, inputs))
      ensures old(Feeding()) && status == Success ==> Decoded()
      ensures old(Feeding()) && status == NeedMore && rowCount == ag.pr.n ==>
                Stalled() && peel.deferCount == |outcome.deferCols| && old(peel.order) <= outcome.order
      ensures !old(Feeding()) ==> Stalled() && outcome == old(outcome) && peel.deferCount == 0
      ensures Stalled() && rowCount == ag.pr.n && (status == NeedMore || !old(Feeding())) ==>
                !Determined(ag, ids, inputs)
      ensures !old(Feeding()) ==>
                OutcomeOk(ag.pr, outcome)
                && (status == NeedMore <==> RetryFails(ag.pr, ag.f, ag.seeds, outcome, CAT_MAX_EXTRA_ROWS))
      ensures !old(Feeding()) && outcome.deferCols == [] ==> status == NeedMore
      ensures !old(Feeding()) && status == Success ==> PeeledAnswer(ag.pr, outcome, inputs, recovery)
    {
      hide Params.Valid, IsField, RowOk, Peeler.Idle, Unique, RowFor, FedRows, GensOf, Undetermined, OutcomeOk, Spent,
           RetryFails, PeeledAnswer;
      if rowCount < ag.pr.n {
        return NeedMore;
      }
      if allOriginal {
        var all := IsAllOriginalData();
        if all {
          return Success;
        }
      }
      ghost var again := !Feeding();
      status := SolveStored(workspace, again);
      if again && outcome.deferCols == [] {
        SameAgain(ag.pr, ag.f, ag.seeds, outcome, inputs, CAT_MAX_EXTRA_ROWS);
      }
    }

    /** The matrix solver on the n stored rows. */
    method SolveStored(workspace: seq<Block>, ghost again: bool) returns (status: Status)
      requires if again then Stalled() && |outcome.deferCols| <= CAT_MAX_EXTRA_ROWS + 1 else Feeding()
      requires |workspace| == ag.pr.n + ag.pr.M() + 1 && rowCount == ag.pr.n
      requires !(allOriginal && forall i :: 0 <= i < ag.pr.n ==> i in ids)
      modifies this`outcome, this`recovery, peel
      ensures status != BadPeelSeed && Stored()
      ensures again || status == NeedMore ==> Stalled() && !Determined(ag, ids, inputs)
      ensures if again then outcome == old(outcome) && peel.deferCount == 0
              else status == NeedMore ==> peel.deferCount == |outcome.deferCols| && old(peel.order) <= outcome.order
      ensures again ==>
                OutcomeOk(ag.pr, outcome)
                && (status == NeedMore <==> RetryFails(ag.pr, ag.f, ag.seeds, outcome, CAT_MAX_EXTRA_ROWS))
      ensures status == Success ==>
                if again then PeeledAnswer(ag.pr, outcome, inputs, recovery)
                else Unique(ag.pr, ag.f, ag.seeds, GensOf(ag, ids), inputs, recovery)
    {
      hide Params.Valid, IsField, RowOk, Peeler.Idle, Unique, RowFor, FedRows, GensOf, Finished, Undetermined,
           OutcomeOk, SameIds, Spent, GraphOf, RowsHold, StageOf, RetryFails, PeeledAnswer, Determined;
      ghost var rows := peel.rows;
      var r, elim;
      ghost var oc, held;
      r, elim, oc, held := SolveMatrix(peel, ag.f, ag.seeds, inputs, CAT_MAX_EXTRA_ROWS, workspace, again, outcome);
      if !again {
        FedGens(ag, rows, ids, oc.gens);
      }
      IdsOnly(rows, peel.rows);
      outcome := oc;
      if again || r != Win {
        NotDetermined(ag, oc, ids, inputs);
      }
      if r != Win {
        return NeedMore;
      }
      GenerateRecoveryBlocks(elim, ag.seeds, oc, inputs, held, again);
      recovery := elim.comp.recovery[..ag.pr.n + ag.pr.M()];
      AnswerHolds(ag.pr, oc, inputs, elim.comp.recovery);
      return Success;
    }

    /** Copies the message blocks that were received and regenerates the rest. If every stored block was the
        encoder's block for its id, the output is the message. */
    method ReconstructOutput() returns (output: seq<Block>)
      requires Decoded()
      ensures forall message, encoded ::
                Encoded(ag, message, encoded) && Received(ag, message, encoded, ids, inputs) ==> output == message
    {
      hide Params.Valid, IsField, RowOk, Unique, GenOf, Trim, Encoded, Received, RowVec, Dot;
      output := seq(ag.pr.n, _ => Zero());
      var copied := seq(ag.pr.n, _ => false);
      for r := 0 to rowCount
        invariant |output| == |copied| == ag.pr.n
        invariant forall i :: 0 <= i < ag.pr.n ==> (copied[i] <==> i in ids[..r])
        invariant forall i :: 0 <= i < ag.pr.n && copied[i] ==> CopyOf(ag, ids, inputs, i, output[i])
      {
        var id := peel.rows[r].id;
        assert ids[..r + 1] == ids[..r] + [id];
        if id < ag.pr.n {
          output := output[id := if id != ag.pr.n - 1 then inputs[r] else Trim(inputs[r], ag.finalBytes)];
          copied := copied[id := true];
        }
      }
      assert ids[..rowCount] == ids;
      for i := 0 to ag.pr.n
        invariant |output| == ag.pr.n
        invariant forall j :: 0 <= j < ag.pr.n && (j < i || copied[j]) ==>
                    Rebuilt(ag, ids, inputs, recovery, j, output[j])
      {
        if !copied[i] {
          UniqueShape(ag, ids, inputs, recovery);
          var block := RegenerateRow(ag.pr, GenOf(ag, i), recovery);
          output := output[i := if i != ag.pr.n - 1 then block else Trim(block, ag.finalBytes)];
        }
      }
      forall message, encoded | Encoded(ag, message, encoded) && Received(ag, message, encoded, ids, inputs)
        ensures output == message
      {
        OutputIsMessage(ag, message, encoded, ids, inputs, recovery, output);
      }
    }
  }

  /** The peeled rows hold of these blocks. */
  ghost predicate PeeledAnswer(pr: Params, oc: Outcome, inputs: seq<Block>, recovery: seq<Block>) {
    && OutcomeOk(pr, oc) && |inputs| == pr.n && |recovery| == pr.n + pr.M()
    && forall i :: 0 <= i < |oc.order| ==>
         Dot(RowVec(pr, oc.gens[oc.order[i]]), recovery, pr.n + pr.M()) == inputs[oc.order[i]]
  }

  lemma AnswerHolds(pr: Params, oc: Outcome, inputs: seq<Block>, recovery: seq<Block>)
    requires OutcomeOk(pr, oc) && |inputs| == pr.n && |recovery| == pr.n + pr.M() + 1
    requires GraphOk(GraphOf(pr, oc, inputs)) && RowsHold(GraphOf(pr, oc, inputs), recovery, |oc.order|)
    ensures PeeledAnswer(pr, oc, inputs, recovery[..pr.n + pr.M()])
  {
    hide RowVec, RowOk, Lowest, Distinct, Params.Valid;
    PeeledFromRows(GraphOf(pr, oc, inputs), recovery);
  }

  /** Every stored block is the encoder's block for its id. */
  ghost predicate Received(ag: Agreement, message: seq<Block>, encoded: seq<Block>, ids: seq<nat>, inputs: seq<Block>) {
    && ag.Valid() && |message| == ag.pr.n && |encoded| == ag.pr.n + ag.pr.M() && |ids| == |inputs| == ag.pr.n
    && forall r :: 0 <= r < ag.pr.n ==> inputs[r] == BlockOf(ag, message, encoded, ids[r])
  }

  function Cut(ag: Agreement, i: nat, x: Block): Block
    requires ag.pr.n > 0
  {
    if i != ag.pr.n - 1 then x else Trim(x, ag.finalBytes)
  }

  /** x is a stored block of id i. */
  ghost predicate CopyOf(ag: Agreement, ids: seq<nat>, inputs: seq<Block>, i: nat, x: Block) {
    ag.pr.n > 0 && exists r :: 0 <= r < |ids| && r < |inputs| && ids[r] == i && x == Cut(ag, i, inputs[r])
  }

  /** Output block i is a stored block of that id, or, if none was stored, its row of the recovery blocks. */
  ghost predicate Rebuilt(ag: Agreement, ids: seq<nat>, inputs: seq<Block>, recovery: seq<Block>, i: nat, x: Block) {
    CopyOf(ag, ids, inputs, i, x) ||
    (ag.Valid() && i !in ids && |recovery| == ag.pr.n + ag.pr.M()
     && x == Cut(ag, i, Dot(RowVec(ag.pr, GenOf(ag, i)), recovery, ag.pr.n + ag.pr.M())))
  }

  lemma UniqueShape(ag: Agreement, ids: seq<nat>, inputs: seq<Block>, recovery: seq<Block>)
    requires ag.Valid() && Unique(ag.pr, ag.f, ag.seeds, GensOf(ag, ids), inputs, recovery)
    ensures |recovery| == ag.pr.n + ag.pr.M()
  {}

  /** Whatever mix of stored and regenerated blocks: the output is the message. */
  lemma OutputIsMessage(ag: Agreement, message: seq<Block>, encoded: seq<Block>, ids: seq<nat>, inputs: seq<Block>,
                        recovery: seq<Block>, output: seq<Block>)
    requires Encoded(ag, message, encoded) && Received(ag, message, encoded, ids, inputs) && |output| == ag.pr.n
    requires (forall i :: 0 <= i < ag.pr.n ==> i in ids)
               || Unique(ag.pr, ag.f, ag.seeds, GensOf(ag, ids), inputs, recovery)
    requires forall i :: 0 <= i < ag.pr.n ==> Rebuilt(ag, ids, inputs, recovery, i, output[i])
    ensures output == message
  {
    hide IsField, Unique, GenOf, Trim, RowVec, Dot, IsPrime;
    if i :| 0 <= i < ag.pr.n && i !in ids {
      SameRecovery(ag, message, encoded, ids, inputs, recovery);
    }
    forall i | 0 <= i < ag.pr.n ensures output[i] == message[i] {
      EveryBlockIsItsRow(ag, message, encoded, i);
      assert Rebuilt(ag, ids, inputs, recovery, i, output[i]);
    }
  }

  /** The fed rows, with the dense and heavy rows, have exactly one solution. */
  ghost predicate Determined(ag: Agreement, ids: seq<nat>, inputs: seq<Block>) {
    ag.Valid() && exists decoded :: Unique(ag.pr, ag.f, ag.seeds, GensOf(ag, ids), inputs, decoded)
  }

  /** When the solver asks for more, there is no such one solution. */
  lemma NotDetermined(ag: Agreement, oc: Outcome, ids: seq<nat>, inputs: seq<Block>)
    requires ag.Valid() && Undetermined(ag.pr, ag.f, ag.seeds, oc, inputs, CAT_MAX_EXTRA_ROWS)
    requires oc.gens == GensOf(ag, ids)
    ensures !Determined(ag, ids, inputs)
  {
    hide IsField, Params.Valid, OutcomeOk, RowOk, Singular, GeMatrix, GraphOk;
    if Determined(ag, ids, inputs) {
      var xs :| Unique(ag.pr, ag.f, ag.seeds, GensOf(ag, ids), inputs, xs);
      assert Satisfied(ag.pr, ag.f, ag.seeds, oc.gens, inputs, xs);
      var ys := NotUnique(ag.pr, ag.f, ag.seeds, oc, inputs, CAT_MAX_EXTRA_ROWS, xs);
    }
  }

  lemma IdsOnly(rows: seq<PeelRow>, rows': seq<PeelRow>)
    requires SameIds(rows, rows')
    ensures |rows'| == |rows| && forall r :: 0 <= r < |rows| ==> rows'[r].id == rows[r].id
  {}

  ghost function Trues(s: seq<bool>, k: nat): nat
    requires k <= |s|
  {
    if k == 0 then 0 else Trues(s, k - 1) + if s[k - 1] then 1 else 0
  }

  lemma {:induction false} TruesNone(s: seq<bool>, k: nat)
    requires k <= |s| && forall i :: 0 <= i < k ==> !s[i]
    ensures Trues(s, k) == 0
  {
    if k > 0 {
      TruesNone(s, k - 1);
    }
  }

  lemma {:induction false} TruesSet(s: seq<bool>, i: nat, k: nat)
    requires k <= |s| && i < |s| && !s[i]
    ensures Trues(s[i := true], k) == Trues(s, k) + if i < k then 1 else 0
  {
    if k > 0 {
      TruesSet(s, i, k - 1);
    }
  }

  lemma {:induction false} TruesAll(s: seq<bool>, k: nat)
    requires k <= |s|
    ensures Trues(s, k) <= k
    ensures Trues(s, k) == k <==> forall i :: 0 <= i < k ==> s[i]
  {
    if k > 0 {
      TruesAll(s, k - 1);
    }
  }
}
