/** BlockAssembler: package selection, contract execution and the reward transaction. What the
    clock, the fee comparison, the ordering of the modified set and the virtual machine decide
    is left open: every outcome is allowed. */
module Miner {
  import opened Common
  import opened MinerSpec
  import opened MinerTotals

  const MAX_CONSECUTIVE_FAILURES := 1000

  datatype Call = Call(gas: nat, gasPrice: nat)

  datatype ExecResult = ExecResult(usedGas: nat, refundSender: int, refundOutputs: seq<Out>,
                                   valueTransfers: seq<BlockTx>, stateRoot: nat, utxoRoot: nat)

  /** What the clock, the configuration, the script parser and the virtual machine answer for one
      contract transaction. */
  datatype Trial = Trial(outOfTime: bool, disabled: bool, calls: Option<seq<Call>>, outcome: Option<ExecResult>)

  datatype Verdict = TooBig | NotYet | Tried

  /** What does not change while a block is being filled. */
  datatype Beginning = Beginning(
    originalReward: seq<Out>, carried: int, stateRoot: nat, utxoRoot: nat, includeWitness: bool)

  // ---------------------------------------------------------------- the reward

  function Total(s: seq<Out>): int {
    if s == [] then 0 else Total(s[..|s| - 1]) + s[|s| - 1].value
  }

  /** The signature operations of some outputs. */
  function SigOpsOf(s: seq<Out>): nat {
    if s == [] then 0 else SigOpsOf(s[..|s| - 1]) + s[|s| - 1].sigOps
  }

  lemma {:induction false} TotalConcat(s: seq<Out>, t: seq<Out>)
    ensures Total(s + t) == Total(s) + Total(t) && SigOpsOf(s + t) == SigOpsOf(s) + SigOpsOf(t)
  {
    if t == [] {
      assert s + t == s;
    } else {
      var last := |t| - 1;
      assert (s + t)[..|s + t| - 1] == s + t[..last];
      TotalConcat(s, t[..last]);
    }
  }

  lemma {:induction false} TotalUpdate(s: seq<Out>, k: nat, v: int)
    requires k < |s|
    ensures Total(s[k := s[k].(value := v)]) == Total(s) - s[k].value + v
    ensures SigOpsOf(s[k := s[k].(value := v)]) == SigOpsOf(s)
  {
    var last, t := |s| - 1, s[k := s[k].(value := v)];
    if k == last {
      assert t[..last] == s[..last];
    } else {
      assert t[..last] == s[..last][k := s[k].(value := v)];
      TotalUpdate(s[..last], k, v);
    }
  }

  /** The outputs of the rebuilt reward transaction. */
  function RewardOutputs(original: seq<Out>, k: nat, earned: int, refundSender: int, refunds: seq<Out>): seq<Out>
    requires k < |original|
  {
    original[k := original[k].(value := earned - refundSender)] + refunds
  }

  /** It pays what was earned, less what senders get back, plus every refund; so exactly what was
      earned if and only if the refunds add up to what was withheld for them. */
  lemma RewardTotal(original: seq<Out>, k: nat, earned: int, refundSender: int, refunds: seq<Out>)
    requires k < |original| && Total(original) == original[k].value
    ensures var paid := Total(RewardOutputs(original, k, earned, refundSender, refunds));
            && paid == earned - refundSender + Total(refunds)
            && (paid == earned <==> refundSender == Total(refunds))
  {
    TotalConcat(original[k := original[k].(value := earned - refundSender)], refunds);
    TotalUpdate(original, k, earned - refundSender);
  }

  lemma RewardSigOps(original: seq<Out>, k: nat, earned: int, refundSender: int, refunds: seq<Out>)
    requires k < |original|
    ensures SigOpsOf(RewardOutputs(original, k, earned, refundSender, refunds)) ==
            SigOpsOf(original) + SigOpsOf(refunds)
  {
    TotalConcat(original[k := original[k].(value := earned - refundSender)], refunds);
    TotalUpdate(original, k, earned - refundSender);
  }

  // ---------------------------------------------------------------- executions

  function TransferWeight(ts: seq<BlockTx>): int {
    if ts == [] then 0 else
      TransferWeight(ts[..|ts| - 1]) + (if ts[|ts| - 1].Transfer? then ts[|ts| - 1].weight else 0)
  }

  function TransferSigOps(ts: seq<BlockTx>): int {
    if ts == [] then 0 else
      TransferSigOps(ts[..|ts| - 1]) + (if ts[|ts| - 1].Transfer? then ts[|ts| - 1].sigOps else 0)
  }

  /** What a run of executions withholds from senders beyond the refunds it orders. */
  function Imbalance(es: seq<ExecResult>): int {
    if es == [] then 0 else
      Imbalance(es[..|es| - 1]) + es[|es| - 1].refundSender - Total(es[|es| - 1].refundOutputs)
  }

  function ExecWeight(es: seq<ExecResult>): int {
    if es == [] then 0 else ExecWeight(es[..|es| - 1]) + TransferWeight(es[|es| - 1].valueTransfers)
  }

  function ExecSigOps(es: seq<ExecResult>): int {
    if es == [] then 0 else ExecSigOps(es[..|es| - 1]) + TransferSigOps(es[|es| - 1].valueTransfers)
  }

  lemma OneMore(es: seq<ExecResult>, r: ExecResult)
    ensures Imbalance(es + [r]) == Imbalance(es) + r.refundSender - Total(r.refundOutputs)
    ensures ExecWeight(es + [r]) == ExecWeight(es) + TransferWeight(r.valueTransfers)
    ensures ExecSigOps(es + [r]) == ExecSigOps(es) + TransferSigOps(r.valueTransfers)
  {
    assert (es + [r])[..|es|] == es;
  }

  function RefundSigOps(es: seq<ExecResult>, refunds: seq<Out>): nat {
    if es == [] then 0 else SigOpsOf(refunds)
  }

  /** The changes of an admission to the sums the books are kept in. */
  lemma AdmittedSums(p: Pool, inBlock: set<nat>, iter: nat, es: seq<ExecResult>, r: ExecResult, refunds: seq<Out>)
    requires iter < |p.entries| && iter !in inBlock
    ensures Sum(inBlock + {iter}, Weights(p)) == Sum(inBlock, Weights(p)) + p.entries[iter].weight
    ensures Sum(inBlock + {iter}, SigOps(p)) == Sum(inBlock, SigOps(p)) + p.entries[iter].sigOps
    ensures Imbalance(es + [r]) == Imbalance(es) + r.refundSender - Total(r.refundOutputs)
    ensures ExecWeight(es + [r]) == ExecWeight(es) + TransferWeight(r.valueTransfers)
    ensures ExecSigOps(es + [r]) == ExecSigOps(es) + TransferSigOps(r.valueTransfers)
    ensures Total(refunds + r.refundOutputs) == Total(refunds) + Total(r.refundOutputs)
    ensures SigOpsOf(refunds + r.refundOutputs) == SigOpsOf(refunds) + SigOpsOf(r.refundOutputs)
  {
    hide Sum;
    OneMore(es, r);
    TotalConcat(refunds, r.refundOutputs);
    SumAdd(inBlock, Weights(p), iter);
    SumAdd(inBlock, SigOps(p), iter);
  }

  /** Every execution refunds exactly what it withholds. */
  predicate Balanced(es: seq<ExecResult>) {
    forall i :: 0 <= i < |es| ==> es[i].refundSender == Total(es[i].refundOutputs)
  }

  lemma {:induction false} BalancedIsEven(es: seq<ExecResult>)
    requires Balanced(es)
    ensures Imbalance(es) == 0
  {
    if es != [] {
      BalancedIsEven(es[..|es| - 1]);
    }
  }

  class BlockAssembler {
    const pool: Pool
    const proofOfStake: bool
    const subsidy: int
    const nBlockMaxWeight: nat
    const dgpMaxBlockWeight: nat
    const dgpMaxBlockSigOps: nat
    const softBlockGasLimit: nat
    const txGasLimit: nat
    const minGasPrice: nat
    const payeeSigOps: nat                   // of scriptPubKeyIn
    const inputSigOps: nat                   // of the inputs of the reward transaction
    const hasTimeLimit: bool                 // nTimeLimit != 0
    const hasFeeFloor: bool                  // some package may pay less than blockMinFeeRate

    var fIncludeWitness: bool
    var vtx: seq<BlockTx>
    var nBlockWeight: int
    var nBlockTx: int
    var nBlockSigOpsCost: int
    var nFees: int
    var inBlock: set<nat>
    var usedGas: nat                          // bceResult
    var refundSender: int
    var refundOutputs: seq<Out>
    var originalReward: seq<Out>
    var stateRoot: nat                        // globalState
    var utxoRoot: nat
    ghost var executions: seq<ExecResult>     // what this block's contracts did
    ghost var carried: int                    // withheld beyond refunds when this block was begun
    ghost var weightBefore: int               // of transfers before the last package
    ghost var sigOpsBefore: int               // of transfers and refunds before the last package
    ghost var firstStateRoot: nat             // when this block was begun
    ghost var firstUtxoRoot: nat

    function ProofTx(): nat { if proofOfStake then 1 else 0 }

    ghost predicate Valid()
      reads this
    {
      && PoolOk(pool)
      && WellOrdered(pool, vtx) && Holds(vtx, inBlock)
      && ProofTx() < |vtx| && vtx[ProofTx()].Reward? && ProofTx() < |originalReward|
      && usedGas <= softBlockGasLimit
      && nFees == Sum(inBlock, Fees(pool))
    }

    /** GetLegacySigOpCount of a reward transaction. */
    function LegacySigOps(vout: seq<Out>): nat { inputSigOps + SigOpsOf(vout) }

    /** What contracts added to the signature operations: their transfers and, once the reward was
        rebuilt, the refunds it carries. */
    ghost function ExtraSigOps(): int
      reads this`executions, this`refundOutputs
    {
      ExecSigOps(executions) + RefundSigOps(executions, refundOutputs)
    }

    ghost predicate NoContracts() {
      forall x :: 0 <= x < |pool.entries| ==> !pool.entries[x].contract
    }

    /** The counters are exactly the reserve, what was chosen, and what contracts brought with them. */
    ghost predicate Weighed()
      reads this`nBlockWeight, this`nBlockSigOpsCost, this`inBlock, this`executions, this`refundOutputs
    {
      && nBlockWeight == 4000 + Sum(inBlock, Weights(pool)) + ExecWeight(executions)
      && nBlockSigOpsCost == 400 + Sum(inBlock, SigOps(pool)) + ExtraSigOps()
    }

    /** The withheld amount and the refunds are those of earlier blocks and of this block's executions. */
    ghost predicate Settled()
      reads this`refundSender, this`refundOutputs, this`executions, this`carried
    {
      && refundSender - Total(refundOutputs) == carried + Imbalance(executions)
      && (NoContracts() ==> executions == [])
    }

    /** The reward holds the refunds as soon as there was an execution. */
    ghost predicate Rewarded()
      reads this`vtx, this`originalReward, this`refundOutputs, this`executions
    {
      && ProofTx() < |vtx| && vtx[ProofTx()].Reward?
      && SigOpsOf(vtx[ProofTx()].vout) == SigOpsOf(originalReward) + RefundSigOps(executions, refundOutputs)
    }

    /** The roots are those the last execution left, or those the block was begun with. */
    ghost predicate Rooted()
      reads this`executions, this`stateRoot, this`utxoRoot, this`firstStateRoot, this`firstUtxoRoot
    {
      if executions == [] then stateRoot == firstStateRoot && utxoRoot == firstUtxoRoot else
        var last := executions[|executions| - 1];
        stateRoot == last.stateRoot && utxoRoot == last.utxoRoot
    }

    ghost predicate Booked()
      reads this`nBlockWeight, this`nBlockSigOpsCost, this`inBlock, this`executions, this`refundOutputs,
            this`refundSender, this`carried, this`vtx, this`originalReward, this`stateRoot, this`utxoRoot,
            this`firstStateRoot, this`firstUtxoRoot
    {
      Weighed() && Settled() && Rewarded() && Rooted()
    }

    method RebuildRefundTransaction()
      requires Valid()
      modifies this`vtx
      ensures Valid()
      ensures vtx == old(vtx)[ProofTx() := Reward(RewardOutputs(originalReward, ProofTx(), nFees + subsidy,
              refundSender, refundOutputs))]
    {
      hide WellOrdered, Holds, Sum;
      var refundtx := 0;
      if proofOfStake {
        refundtx := 1;
      }
      var vout := originalReward;
      vout := vout[refundtx := vout[refundtx].(value := nFees + subsidy)];
      vout := vout[refundtx := vout[refundtx].(value := vout[refundtx].value - refundSender)];
      var i := 0;
      while i < |refundOutputs|
        invariant 0 <= i <= |refundOutputs|
        invariant vout == RewardOutputs(originalReward, refundtx, nFees + subsidy, refundSender, refundOutputs[..i])
      {
        assert refundOutputs[..i + 1] == refundOutputs[..i] + [refundOutputs[i]];
        vout := vout + [refundOutputs[i]];
        i := i + 1;
      }
      assert refundOutputs[..i] == refundOutputs;
      OrderedReward(pool, vtx, inBlock, refundtx, Reward(vout));
      vtx := vtx[refundtx := Reward(vout)];
    }

    method AddToBlock(iter: nat)
      requires Valid() && iter < |pool.entries| && iter !in inBlock && Ancestors(pool, iter) <= inBlock
      modifies this`vtx, this`nBlockWeight, this`nBlockTx, this`nBlockSigOpsCost, this`nFees, this`inBlock
      ensures Valid() && inBlock == old(inBlock) + {iter} && vtx == old(vtx) + [Pooled(iter)]
      ensures nBlockWeight == old(nBlockWeight) + pool.entries[iter].weight && nBlockTx == old(nBlockTx) + 1
      ensures nBlockSigOpsCost == old(nBlockSigOpsCost) + pool.entries[iter].sigOps
      ensures old(Booked()) ==> Booked()
    {
      hide WellOrdered, Holds, Sum, Ancestors, PoolOk;
      OrderedAdd(pool, vtx, inBlock, iter);
      SumAdd(inBlock, Fees(pool), iter);
      SumAdd(inBlock, Weights(pool), iter);
      SumAdd(inBlock, SigOps(pool), iter);
      vtx := vtx + [Pooled(iter)];
      nBlockWeight := nBlockWeight + pool.entries[iter].weight;
      nBlockTx := nBlockTx + 1;
      nBlockSigOpsCost := nBlockSigOpsCost + pool.entries[iter].sigOps;
      nFees := nFees + pool.entries[iter].fee;
      inBlock := inBlock + {iter};
    }

    /** The value transfers a contract made, after the transaction that called it. */
    method AddTransfers(ts: seq<BlockTx>)
      requires Valid() && forall i :: 0 <= i < |ts| ==> ts[i].Transfer?
      modifies this`vtx, this`nBlockWeight, this`nBlockTx, this`nBlockSigOpsCost
      ensures Valid() && vtx == old(vtx) + ts && nBlockTx == old(nBlockTx) + |ts|
      ensures nBlockWeight == old(nBlockWeight) + TransferWeight(ts)
      ensures nBlockSigOpsCost == old(nBlockSigOpsCost) + TransferSigOps(ts)
    {
      hide WellOrdered, Holds, Sum, PoolOk;
      for i := 0 to |ts|
        invariant Valid() && vtx == old(vtx) + ts[..i] && nBlockTx == old(nBlockTx) + i
        invariant nBlockWeight == old(nBlockWeight) + TransferWeight(ts[..i])
        invariant nBlockSigOpsCost == old(nBlockSigOpsCost) + TransferSigOps(ts[..i])
      {
        OrderedOther(pool, vtx, inBlock, ts[i]);
        assert ts[..i + 1][..i] == ts[..i];
        vtx := vtx + [ts[i]];
        nBlockWeight := nBlockWeight + ts[i].weight;
        nBlockSigOpsCost := nBlockSigOpsCost + ts[i].sigOps;
        nBlockTx := nBlockTx + 1;
      }
      assert ts[..|ts|] == ts;
    }

    /** performByteCode and processingResults leave new state roots, and a result or none. */
    method Execute(outcome: Option<ExecResult>) returns (result: Option<ExecResult>)
      modifies this`stateRoot, this`utxoRoot
      ensures result == if outcome.Some? && OnlyTransfers(outcome.value) then outcome else None
      ensures result.Some? ==> stateRoot == result.value.stateRoot && utxoRoot == result.value.utxoRoot
    {
      stateRoot := *;
      utxoRoot := *;
      if outcome == None || !OnlyTransfers(outcome.value) {
        return None;
      }
      stateRoot, utxoRoot := outcome.value.stateRoot, outcome.value.utxoRoot;
      result := outcome;
    }

    predicate OnlyTransfers(r: ExecResult) {
      forall i :: 0 <= i < |r.valueTransfers| ==> r.valueTransfers[i].Transfer?
    }

    /** A call within the limits, given the gas its transaction asks for so far. */
    predicate CallAllowed(calls: seq<Call>, i: nat)
      requires i < |calls|
      reads this`usedGas
    {
      && TotalGas(calls[..i + 1]) <= txGasLimit
      && usedGas + calls[i].gas <= softBlockGasLimit
      && calls[i].gasPrice >= minGasPrice
    }

    /** Calls that are all allowed pay enough each, fit each into the block, and ask together for no
        more than one transaction may. */
    lemma AllowedCalls(calls: seq<Call>)
      requires forall i :: 0 <= i < |calls| ==> CallAllowed(calls, i)
      ensures calls != [] ==> TotalGas(calls) <= txGasLimit
      ensures forall i :: 0 <= i < |calls| ==>
                calls[i].gasPrice >= minGasPrice && usedGas + calls[i].gas <= softBlockGasLimit
    {
      hide TotalGas;
      if calls != [] {
        assert CallAllowed(calls, |calls| - 1);
        assert calls[..|calls|] == calls;
      }
      forall i | 0 <= i < |calls|
        ensures calls[i].gasPrice >= minGasPrice && usedGas + calls[i].gas <= softBlockGasLimit
      {
        assert CallAllowed(calls, i);
      }
    }

    /** The limits each call must respect before anything is executed. */
    method CallsAllowed(calls: seq<Call>) returns (ok: bool)
      ensures ok <==> forall i :: 0 <= i < |calls| ==> CallAllowed(calls, i)
    {
      var txGas := 0;
      for i := 0 to |calls|
        invariant txGas == TotalGas(calls[..i])
        invariant forall j :: 0 <= j < i ==> CallAllowed(calls, j)
      {
        assert calls[..i + 1][..i] == calls[..i];
        txGas := txGas + calls[i].gas;
        assert CallAllowed(calls, i) <==>
                 txGas <= txGasLimit && usedGas + calls[i].gas <= softBlockGasLimit && calls[i].gasPrice >= minGasPrice;
        if txGas > txGasLimit {
          return false;
        }
        if usedGas + calls[i].gas > softBlockGasLimit {
          return false;
        }
        if calls[i].gasPrice < minGasPrice {
          return false;
        }
      }
      return true;
    }

    /** Applies an execution that fits to the block. */
    method Admit(iter: nat, r: ExecResult)
      requires Valid() && iter < |pool.entries| && iter !in inBlock && Ancestors(pool, iter) <= inBlock
      requires usedGas + r.usedGas <= softBlockGasLimit
      requires forall i :: 0 <= i < |r.valueTransfers| ==> r.valueTransfers[i].Transfer?
      modifies this`usedGas, this`refundSender, this`refundOutputs, this`executions,
               this`vtx, this`nBlockWeight, this`nBlockTx, this`nBlockSigOpsCost, this`nFees, this`inBlock
      ensures Valid() && inBlock == old(inBlock) + {iter}
      ensures usedGas == old(usedGas) + r.usedGas && refundSender == old(refundSender) + r.refundSender
      ensures refundOutputs == old(refundOutputs) + r.refundOutputs
      ensures vtx == (old(vtx) + [Pooled(iter)] + r.valueTransfers)
                       [ProofTx() := Reward(RewardOutputs(originalReward, ProofTx(), nFees + subsidy, refundSender,
                           refundOutputs))]
      ensures nBlockWeight == old(nBlockWeight) + pool.entries[iter].weight + TransferWeight(r.valueTransfers)
      ensures nBlockTx == old(nBlockTx) + 1 + |r.valueTransfers|
      ensures nBlockSigOpsCost == old(nBlockSigOpsCost) + pool.entries[iter].sigOps + TransferSigOps(r.valueTransfers)
                                  - old(LegacySigOps(vtx[ProofTx()].vout)) + LegacySigOps(vtx[ProofTx()].vout)
      ensures executions == old(executions) + [r]
      ensures SigOpsOf(vtx[ProofTx()].vout) == SigOpsOf(originalReward) + SigOpsOf(refundOutputs)
    {
      hide WellOrdered, Holds, Sum, Ancestors, PoolOk, TransferWeight, TransferSigOps, RewardOutputs, Booked, SigOpsOf;
      usedGas := usedGas + r.usedGas;
      refundSender := refundSender + r.refundSender;
      refundOutputs := refundOutputs + r.refundOutputs;
      AddToBlock(iter);
      AddTransfers(r.valueTransfers);
      nBlockSigOpsCost := nBlockSigOpsCost - LegacySigOps(vtx[ProofTx()].vout);
      RebuildRefundTransaction();
      RewardSigOps(originalReward, ProofTx(), nFees + subsidy, refundSender, refundOutputs);
      nBlockSigOpsCost := nBlockSigOpsCost + LegacySigOps(vtx[ProofTx()].vout);
      executions := executions + [r];
    }

    /** Extracts and executes the calls of a contract transaction and tests the result against the
        limits. Nothing but the state roots changes, and those only for a result that passes. */
    method Evaluate(iter: nat, trial: Trial) returns (result: Option<ExecResult>)
      requires Valid() && iter < |pool.entries|
      modifies this`stateRoot, this`utxoRoot
      ensures result == if old(Admissible(iter, trial)) then trial.outcome else None
      ensures result == None ==> stateRoot == old(stateRoot) && utxoRoot == old(utxoRoot)
      ensures result.Some? ==> stateRoot == result.value.stateRoot && utxoRoot == result.value.utxoRoot
      ensures result.Some? ==>
                var r := result.value;
                && usedGas + r.usedGas <= softBlockGasLimit
                && (forall i :: 0 <= i < |r.valueTransfers| ==> r.valueTransfers[i].Transfer?)
                && nBlockWeight + pool.entries[iter].weight + TransferWeight(r.valueTransfers) <= dgpMaxBlockWeight
                && (nBlockSigOpsCost + pool.entries[iter].sigOps + TransferSigOps(r.valueTransfers)
                    - LegacySigOps(vtx[ProofTx()].vout) +
                        LegacySigOps(vtx[ProofTx()].vout + r.refundOutputs)) * 4 <= dgpMaxBlockSigOps
    {
      hide WellOrdered, Holds, Sum, PoolOk, TransferWeight, TransferSigOps, SigOpsOf, TotalGas;
      if trial.outOfTime || trial.disabled {
        return None;
      }
      if trial.calls == None {
        return None;
      }
      var allowed := CallsAllowed(trial.calls.value);
      if !allowed {
        return None;
      }
      var oldHashStateRoot, oldHashUTXORoot := stateRoot, utxoRoot;
      var executed := Execute(trial.outcome);
      if executed == None {
        stateRoot, utxoRoot := oldHashStateRoot, oldHashUTXORoot;
        return None;
      }
      var r := executed.value;
      if usedGas + r.usedGas > softBlockGasLimit {
        stateRoot, utxoRoot := oldHashStateRoot, oldHashUTXORoot;
        return None;
      }
      var weight := nBlockWeight + pool.entries[iter].weight + TransferWeight(r.valueTransfers);
      var sigOps := nBlockSigOpsCost + pool.entries[iter].sigOps + TransferSigOps(r.valueTransfers);
      sigOps := sigOps - LegacySigOps(vtx[ProofTx()].vout);
      sigOps := sigOps + LegacySigOps(vtx[ProofTx()].vout + r.refundOutputs);
      if sigOps * 4 > dgpMaxBlockSigOps || weight > dgpMaxBlockWeight {
        stateRoot, utxoRoot := oldHashStateRoot, oldHashUTXORoot;
        return None;
      }
      assert Admissible(iter, trial);
      return Some(r);
    }

    /** A contract is admitted when there is time for it, contracts are enabled, its calls can be read
        and each respects the gas and price limits, its execution succeeds, and the block with its gas,
        its transfers and its refunds stays within the limits. */
    ghost predicate Admissible(iter: nat, trial: Trial)
      reads this`usedGas, this`nBlockWeight, this`nBlockSigOpsCost, this`vtx
    {
      && iter < |pool.entries| && ProofTx() < |vtx| && vtx[ProofTx()].Reward?
      && !trial.outOfTime && !trial.disabled && trial.calls.Some? && trial.outcome.Some?
      && (forall i :: 0 <= i < |trial.calls.value| ==> CallAllowed(trial.calls.value, i))
      && OnlyTransfers(trial.outcome.value)
      && var e, r, reward := pool.entries[iter], trial.outcome.value, vtx[ProofTx()].vout;
         && usedGas + r.usedGas <= softBlockGasLimit
         && nBlockWeight + e.weight + TransferWeight(r.valueTransfers) <= dgpMaxBlockWeight
         && (nBlockSigOpsCost + e.sigOps + TransferSigOps(r.valueTransfers)
             - LegacySigOps(reward) + LegacySigOps(reward + r.refundOutputs)) * 4 <= dgpMaxBlockSigOps
    }

    /** A refused contract leaves no trace; an accepted one brings its transfers, its gas and its
        refunds with it, within the limits. At the first execution of a block the test leaves out the
        refunds carried over from earlier blocks, which the rebuilt reward then holds as well. */
    method AttemptToAddContractToBlock(iter: nat, trial: Trial) returns (added: bool)
      requires Valid() && iter < |pool.entries| && iter !in inBlock && Ancestors(pool, iter) <= inBlock
      modifies this
      ensures Valid()
      ensures added <==> old(Admissible(iter, trial))
      ensures !added ==> unchanged(this)
      ensures added ==>
                && inBlock == old(inBlock) + {iter} && originalReward == old(originalReward) &&
                   fIncludeWitness == old(fIncludeWitness)
                && |executions| == |old(executions)| + 1 && carried == old(carried)
                && weightBefore == old(weightBefore) && sigOpsBefore == old(sigOpsBefore)
                && firstStateRoot == old(firstStateRoot) && firstUtxoRoot == old(firstUtxoRoot)
                && var r := executions[|old(executions)|];
                   && Some(r) == trial.outcome && stateRoot == r.stateRoot && utxoRoot == r.utxoRoot
                   && executions == old(executions) + [r]
                   && usedGas == old(usedGas) + r.usedGas
                   && refundSender == old(refundSender) + r.refundSender
                   && refundOutputs == old(refundOutputs) + r.refundOutputs
                   && vtx == (old(vtx) + [Pooled(iter)] + r.valueTransfers)
                              [ProofTx() := Reward(RewardOutputs(originalReward, ProofTx(), nFees + subsidy,
                                  refundSender, refundOutputs))]
                   && nBlockWeight == old(nBlockWeight) + pool.entries[iter].weight +
                      TransferWeight(r.valueTransfers) <= dgpMaxBlockWeight
                   && nBlockTx == old(nBlockTx) + 1 + |r.valueTransfers|
                   && var others := old(nBlockSigOpsCost) + pool.entries[iter].sigOps + TransferSigOps(r.valueTransfers)
                                    - old(LegacySigOps(vtx[ProofTx()].vout));
                      && (others + LegacySigOps(old(vtx[ProofTx()].vout) + r.refundOutputs)) * 4 <= dgpMaxBlockSigOps
                      && nBlockSigOpsCost == others + LegacySigOps(vtx[ProofTx()].vout)
      ensures added && pool.entries[iter].contract && old(Booked()) ==>
                && Booked()
                && (nBlockSigOpsCost
                    - (if old(executions) == [] then SigOpsOf(old(refundOutputs)) else 0)) * 4 <= dgpMaxBlockSigOps
    {
      hide WellOrdered, Holds, Sum, Ancestors, PoolOk, TransferWeight, TransferSigOps, RewardOutputs, SigOpsOf;
      hide Total, Imbalance, ExecWeight, ExecSigOps;
      var result := Evaluate(iter, trial);
      if result == None {
        return false;
      }
      var r := result.value;
      TotalConcat(vtx[ProofTx()].vout, r.refundOutputs);
      AdmittedSums(pool, inBlock, iter, executions, r, refundOutputs);
      Admit(iter, r);
      return true;
    }

    predicate TestPackage(packageSize: int, packageSigOpsCost: int)
      reads this
    {
      nBlockWeight + 4 * packageSize < nBlockMaxWeight && nBlockSigOpsCost + packageSigOpsCost < dgpMaxBlockSigOps
    }

    predicate TestPackageTransactions(package: set<nat>)
      requires forall x :: x in package ==> x < |pool.entries|
      reads this
    {
      forall x :: x in package ==> pool.entries[x].finalTx && (fIncludeWitness || !pool.entries[x].hasWitness)
    }

    /** A sort by ancestor count, then hash. */
    method SortForBlock(package: set<nat>) returns (sorted: seq<nat>)
      requires PoolOk(pool) && forall x :: x in package ==> x < |pool.entries|
      ensures SortedPackage(pool, package, sorted)
    {
      hide PoolOk, CountWithAncestors, Before;
      sorted := [];
      var todo := package;
      while todo != {}
        invariant todo <= package
        invariant SortedPackage(pool, package - todo, sorted)
        invariant forall i, x :: 0 <= i < |sorted| && x in todo ==> Before(pool, sorted[i], x)
        decreases |todo|
      {
        ghost var first := FirstExists(pool, todo);
        assert first in todo;
        var x :| x in todo && forall y :: y in todo && y != x ==> Before(pool, x, y);
        sorted := sorted + [x];
        todo := todo - {x};
      }
    }

    /** A new or existing modified entry, less one included ancestor. */
    method Lowered(desc: nat, it: nat, m: map<nat, Modified>) returns (e: Modified)
      requires PoolOk(pool) && it < |pool.entries| && desc < |pool.entries|
      ensures e == Without(Start(pool, m, desc), pool, {it})
    {
      hide PoolOk, Without, FromPool;
      WithoutOne(Start(pool, m, desc), pool, it);
      if desc !in m {
        e := FromPool(pool, desc);
        e := Modified(e.size - pool.entries[it].size, e.sigOps - pool.entries[it].sigOps);
      } else {
        e := Modified(m[desc].size - pool.entries[it].size, m[desc].sigOps - pool.entries[it].sigOps);
      }
    }

    /** Accounts one included transaction to all its descendants outside the block. */
    method UpdateDescendants(it: nat, alreadyAdded: set<nat>, before: map<nat, Modified>,
                             ghost start: map<nat, Modified>, ghost done: set<nat>)
      returns (m: map<nat, Modified>)
      requires PoolOk(pool) && it < |pool.entries| && it !in done && start.Keys !! alreadyAdded
      requires Accounted(pool, start, before, alreadyAdded, done)
      ensures Accounted(pool, start, m, alreadyAdded, done + {it})
    {
      hide PoolOk, Ancestors, Accounted, FromPool, Without, LoweredAll, Start;
      LoweredNone(pool, before, it);
      m := before;
      var todo := set x | 0 <= x < |pool.entries| && it in Ancestors(pool, x) && x !in alreadyAdded;
      ghost var all := todo;
      assert all - todo == {};
      while todo != {}
        invariant todo <= all && m == LoweredAll(pool, before, it, all - todo)
        decreases |todo|
      {
        var desc :| desc in todo;
        LoweredNext(pool, before, it, all - todo, desc);
        assert all - todo + {desc} == all - (todo - {desc});
        var e := Lowered(desc, it, m);
        m := m[desc := e];
        todo := todo - {desc};
      }
      assert all - todo == all;
      AccountedNext(pool, start, before, alreadyAdded, done, it, all);
    }

    method UpdatePackagesForAdded(alreadyAdded: set<nat>, mapModifiedTx: map<nat, Modified>)
      returns (m: map<nat, Modified>)
      requires PoolOk(pool) && mapModifiedTx.Keys !! alreadyAdded
      requires forall x :: x in alreadyAdded ==> x < |pool.entries|
      requires forall x :: x in mapModifiedTx ==> x < |pool.entries|
      ensures Accounted(pool, mapModifiedTx, m, alreadyAdded, alreadyAdded)
    {
      hide PoolOk, Accounted;
      m := mapModifiedTx;
      var todo := alreadyAdded;
      AccountedNone(pool, m, alreadyAdded);
      assert alreadyAdded - todo == {};
      while todo != {}
        invariant todo <= alreadyAdded
        invariant Accounted(pool, mapModifiedTx, m, alreadyAdded, alreadyAdded - todo)
        decreases |todo|
      {
        var it :| it in todo;
        m := UpdateDescendants(it, alreadyAdded, m, mapModifiedTx, alreadyAdded - todo);
        assert alreadyAdded - todo + {it} == alreadyAdded - (todo - {it});
        todo := todo - {it};
      }
      assert alreadyAdded - todo == alreadyAdded;
    }

    /** Adds a sorted package until a contract fails or time runs out. Whatever happens the package
        leaves the modified set, and what entered the block is a prefix of it. */
    method AddPackage(iter: nat, sorted: seq<nat>, fUsingModified: bool, mapModifiedTx: map<nat, Modified>,
                      failedTx: set<nat>)
      returns (wasAdded: bool, m: map<nat, Modified>, failed: set<nat>)
      requires Valid() && Booked() && iter < |pool.entries| && iter !in inBlock
      requires SortedPackage(pool, Package(pool, iter, inBlock), sorted)
      requires fUsingModified ==> iter in mapModifiedTx
      requires CanBeMined(inBlock) && CanBeMined(SetOf(sorted))
      modifies this
      ensures Valid() && Booked() && Continues(old(Begun()), old(executions))
      ensures weightBefore == old(weightBefore) && sigOpsBefore == old(sigOpsBefore)
      ensures old(inBlock) <= inBlock <= old(inBlock) + SetOf(sorted)
      ensures CanBeMined(inBlock)
      ensures wasAdded ==> inBlock == old(inBlock) + SetOf(sorted) && failed == failedTx
      ensures !hasTimeLimit && NoContracts() ==> wasAdded
      ensures m == mapModifiedTx - SetOf(sorted)
    {
      hide WellOrdered, Holds, Sum, Ancestors, PoolOk, SortedPackage, Package, Booked, SetOf, RewardOutputs;
      wasAdded, m, failed := true, mapModifiedTx, failedTx;
      var i := 0;
      ghost var placed, erased := 0, {};
      EmptyPrefix(sorted);
      while i < |sorted|
        invariant placed <= i <= |sorted| && (wasAdded ==> placed == i && erased == {} && failed == failedTx)
        invariant !hasTimeLimit && NoContracts() ==> wasAdded
        invariant Valid() && Booked() && Continues(old(Begun()), old(executions))
        invariant weightBefore == old(weightBefore) && sigOpsBefore == old(sigOpsBefore)
        invariant inBlock == old(inBlock) + SetOf(sorted[..placed])
        invariant m == mapModifiedTx - SetOf(sorted[..i]) - erased && erased <= {iter}
      {
        SetOfNext(sorted, i);
        var outOfTime: bool := *;
        if !wasAdded || (hasTimeLimit && outOfTime) {
          m := m - {sorted[i]};
          wasAdded := false;
          i := i + 1;
          continue;
        }
        PackageOrder(pool, iter, old(inBlock), sorted, i);
        if pool.entries[sorted[i]].contract {
          var trial: Trial := *;
          wasAdded := AttemptToAddContractToBlock(sorted[i], trial);
          if !wasAdded {
            if fUsingModified {
              PackageLast(pool, iter, old(inBlock), sorted, i);
              assert iter in m;
              m := m - {iter};
              erased := {iter};
              failed := failed + {iter};
            }
          }
        } else {
          AddToBlock(sorted[i]);
        }
        if wasAdded {
          placed := i + 1;
        }
        m := m - {sorted[i]};
        i := i + 1;
      }
      PackageLast(pool, iter, old(inBlock), sorted, |sorted|);
      PrefixOf(sorted, placed);
      assert sorted[..|sorted|] == sorted;
    }

    /** What a whole selection leaves alone: what the block was begun with, and the executions already
        recorded. */
    ghost function Begun(): Beginning
      reads this`originalReward, this`carried, this`firstStateRoot, this`firstUtxoRoot, this`fIncludeWitness
    {
      Beginning(originalReward, carried, firstStateRoot, firstUtxoRoot, fIncludeWitness)
    }

    ghost predicate Continues(begun: Beginning, es: seq<ExecResult>)
      reads this`originalReward, this`carried, this`executions, this`firstStateRoot, this`firstUtxoRoot,
            this`fIncludeWitness
    {
      Begun() == begun && es <= executions
    }

    /** A block that holds anything exceeds a limit by at most what the contracts of its last
        package brought with them; without contracts it is below both. */
    ghost predicate WithinLimits()
      reads this`nBlockWeight, this`nBlockSigOpsCost, this`executions, this`refundOutputs, this`weightBefore,
            this`sigOpsBefore
    {
      && (nBlockWeight == 4000 || nBlockWeight < nBlockMaxWeight + (ExecWeight(executions) - weightBefore))
      && (nBlockSigOpsCost == 400 || nBlockSigOpsCost < dgpMaxBlockSigOps + (ExtraSigOps() - sigOpsBefore))
      && (NoContracts() ==> weightBefore == 0 && sigOpsBefore == 0)
    }

    lemma PlainExtras()
      requires Settled()
      ensures NoContracts() ==> ExecWeight(executions) == 0 && ExtraSigOps() == 0
    {
    }

    lemma PlainLimits()
      requires Booked() && WithinLimits() && NoContracts()
      ensures nBlockWeight == 4000 + Sum(inBlock, Weights(pool)) && nBlockSigOpsCost == 400 + Sum(inBlock, SigOps(pool))
      ensures nBlockWeight == 4000 || nBlockWeight < nBlockMaxWeight
      ensures nBlockSigOpsCost == 400 || nBlockSigOpsCost < dgpMaxBlockSigOps
    {
    }

    /** One package, from the order of its entries to the update of what depends on it. */
    method TryPackage(iter: nat, recorded: Modified, fUsingModified: bool, mapModifiedTx: map<nat, Modified>,
                      failedTx: set<nat>, ghost wanted: set<nat>)
      returns (m: map<nat, Modified>, failed: set<nat>)
      requires Valid() && Booked() && WithinLimits() && ModifiedOk(pool, mapModifiedTx, inBlock)
      requires iter < |pool.entries| && iter !in inBlock && (fUsingModified ==> iter in mapModifiedTx)
      requires EntryCovers(pool, recorded, iter, inBlock) && TestPackage(recorded.size, recorded.sigOps)
      requires CanBeMined(inBlock) && CanBeMined(Package(pool, iter, inBlock))
      modifies this
      ensures Valid() && Booked() && WithinLimits() && ModifiedOk(pool, m, inBlock)
      ensures Continues(old(Begun()), old(executions))
      ensures old(inBlock) <= inBlock && CanBeMined(inBlock)
      ensures iter in inBlock || (m.Keys <= mapModifiedTx.Keys && iter !in m)
      ensures !hasTimeLimit && NoContracts() ==>
                && iter in inBlock && failed == failedTx && mapModifiedTx.Keys <= m.Keys + inBlock
                && (Exact(pool, wanted, mapModifiedTx, old(inBlock)) ==> Exact(pool, wanted, m, inBlock))
    {
      hide WellOrdered, Holds, Sum, Ancestors, PoolOk, SortedPackage, Package, SetOf, Covers, EntryCovers, Accounted;
      hide ExecWeight, ExtraSigOps, Settled, Rewarded;
      var ancestors := Package(pool, iter, inBlock);
      PackageIds(pool, iter, inBlock);
      var sorted := SortForBlock(ancestors);
      PackageLast(pool, iter, inBlock, sorted, 0);
      PlainExtras();
      weightBefore, sigOpsBefore := ExecWeight(executions), ExtraSigOps();
      var wasAdded;
      wasAdded, m, failed := AddPackage(iter, sorted, fUsingModified, mapModifiedTx, failedTx);
      PackageFits(pool, old(inBlock), inBlock, iter, recorded);
      ModifiedAfterFailure(pool, old(inBlock), old(inBlock), ancestors, mapModifiedTx);
      ModifiedAfterFailure(pool, old(inBlock), inBlock, ancestors, mapModifiedTx);
      if wasAdded {
        ghost var before := m;
        ModifiedIds(pool, m, inBlock);
        m := UpdatePackagesForAdded(ancestors, m);
        ModifiedAfterSuccess(pool, old(vtx), old(inBlock), iter, before, m);
        WholePackage(wanted, mapModifiedTx, m, old(inBlock), iter);
      }
    }

    lemma WholePackage(wanted: set<nat>, m: map<nat, Modified>, m': map<nat, Modified>, before: set<nat>, iter: nat)
      requires PoolOk(pool) && iter < |pool.entries| && iter !in before
      requires var package := Package(pool, iter, before); Accounted(pool, m - package, m', package, package)
      ensures var after := before + Package(pool, iter, before);
              && iter in after && m.Keys <= m'.Keys + after
              && (Exact(pool, wanted, m, before) ==> Exact(pool, wanted, m', after))
    {
      hide PoolOk, Ancestors, Exact;
      if Exact(pool, wanted, m, before) {
        ExactAfter(pool, wanted, m, m', before, Package(pool, iter, before));
      }
    }

    /** Everything of `s` is final, and without witness data unless the block may carry some. */
    ghost predicate CanBeMined(s: set<nat>)
      reads this`fIncludeWitness
    {
      forall x :: x in s && x < |pool.entries| ==>
        pool.entries[x].finalTx && (fIncludeWitness || !pool.entries[x].hasWitness)
    }

    /** Nothing but its own transactions keeps the pool out of the block: there are no contracts, no time
        limit and no package below the fee rate, and the block has room for all of it. */
    ghost predicate Ample(order: seq<nat>) {
      && NoContracts() && !hasTimeLimit && !hasFeeFloor
      && 8000 + 4 * Sum(All(pool), Sizes(pool)) <= nBlockMaxWeight < 0x1_0000_0000
      && 400 + Sum(All(pool), SigOps(pool)) < dgpMaxBlockSigOps
      && forall x :: x in All(pool) ==> x in order
    }

    /** When there is room for all, a minable package is never refused. */
    lemma AlwaysFits(order: seq<nat>, m: map<nat, Modified>, iter: nat)
      requires Valid() && Booked() && Ample(order) && iter < |pool.entries| && iter !in inBlock
      requires inBlock <= All(pool) && ExactAt(pool, m, inBlock, iter)
      ensures TestPackage(Start(pool, m, iter).size, Start(pool, m, iter).sigOps)
    {
      hide WellOrdered, Holds, Sum, Ancestors, PoolOk, ExactAt;
      RecordedExact(pool, m, inBlock, iter);
      RestFits(pool, inBlock, iter);
      PlainExtras();
    }

    lemma NeverGivesUp(order: seq<nat>)
      requires Valid() && Booked() && Ample(order) && inBlock <= All(pool)
      ensures nBlockWeight <= (nBlockMaxWeight - 4000) % 0x1_0000_0000
    {
      hide WellOrdered, Holds, Sum, Ancestors, PoolOk;
      BlockFits(pool, inBlock);
      PlainExtras();
    }

    lemma Refusable(iter: nat)
      requires Valid() && CanBeMined(inBlock) && iter < |pool.entries|
      ensures forall x :: x in Package(pool, iter, inBlock) ==> x < |pool.entries|
      ensures inBlock <= Minable(pool, fIncludeWitness) <= All(pool)
      ensures TestPackageTransactions(Package(pool, iter, inBlock)) <==> iter in Minable(pool, fIncludeWitness)
      ensures TestPackageTransactions(Package(pool, iter, inBlock)) ==> CanBeMined(Package(pool, iter, inBlock))
    {
      hide WellOrdered, Holds, Sum, Ancestors, PoolOk;
      MinableInBlock(pool, vtx, inBlock, fIncludeWitness);
      MinableIds(pool, fIncludeWitness);
      PackageIds(pool, iter, inBlock);
      PackageMinable(pool, iter, inBlock, fIncludeWitness);
    }

    lemma NotAmple(order: seq<nat>)
      requires hasTimeLimit || hasFeeFloor
      ensures !Ample(order)
    {
    }

    lemma AmpleListsAll(order: seq<nat>)
      requires Ample(order)
      ensures NoContracts() && !hasTimeLimit && forall x :: x in All(pool) ==> x in order
    {
    }

    lemma NothingYet()
      requires inBlock == {}
      ensures CanBeMined(inBlock)
    {
    }

    /** The selection loop. `order` is the pool in the order its score index lists it. */
    method AddPackageTxs(order: seq<nat>)
      requires Valid() && Booked() && WithinLimits() && inBlock == {}
      requires forall i :: 0 <= i < |order| ==> order[i] < |pool.entries|
      modifies this
      ensures Valid() && Booked() && WithinLimits() && Continues(old(Begun()), old(executions))
      ensures CanBeMined(inBlock)
      ensures Ample(order) ==> inBlock == Minable(pool, fIncludeWitness)
    {
      hide WellOrdered, Holds, Sum, Ancestors, PoolOk, Covers, EntryCovers, Accounted, Booked, WithinLimits, FromPool;
      hide Tracks, Ample, CanBeMined, Exact, ExactAt, Minable, All, NoContracts, TestPackage, TestPackageTransactions;
      ghost var wanted := Minable(pool, fIncludeWitness);
      var mapModifiedTx: map<nat, Modified> := UpdatePackagesForAdded(inBlock, map[]);
      NothingModified(pool, mapModifiedTx);
      NothingYet();
      ExactNone(pool, wanted, mapModifiedTx);
      BeginsTracking(pool, wanted, order);
      var failedTx: set<nat> := {};
      var mi := 0;
      var nConsecutiveFailed := 0;
      while mi < |order| || mapModifiedTx != map[]
        invariant Valid() && Booked() && WithinLimits() && Continues(old(Begun()), old(executions))
        invariant mi <= |order| && ModifiedOk(pool, mapModifiedTx, inBlock)
        invariant CanBeMined(inBlock) && wanted == Minable(pool, fIncludeWitness)
        invariant Ample(order) ==> Tracks(pool, wanted, inBlock, order, mi, mapModifiedTx, failedTx)
        decreases Unchosen(inBlock, |pool.entries|), |order| - mi + |mapModifiedTx|
      {
        var outOfTime: bool := *;
        if hasTimeLimit && outOfTime {
          NotAmple(order);
          return;
        }
        if mi < |order| && (order[mi] in mapModifiedTx || order[mi] in inBlock || order[mi] in failedTx) {
          SkipTracks(pool, wanted, inBlock, order, mi, mapModifiedTx, failedTx);
          mi := mi + 1;
          continue;
        }
        ModifiedIds(pool, mapModifiedTx, inBlock);
        var fUsingModified, iter := PickNext(order, mi, mapModifiedTx);
        ghost var at := mi;
        if !fUsingModified {
          mi := mi + 1;
        }
        assert iter !in inBlock;
        var recorded := if fUsingModified then mapModifiedTx[iter] else FromPool(pool, iter);
        var feeTooLow: bool := *;
        if hasFeeFloor && feeTooLow {
          NotAmple(order);
          return;
        }
        ghost var chosen, had := inBlock, mapModifiedTx;
        var verdict;
        verdict, mapModifiedTx, failedTx :=
          Consider(iter, recorded, fUsingModified, mapModifiedTx, failedTx, order, at, mi, wanted);
        match verdict {
          case TooBig =>
            nConsecutiveFailed := nConsecutiveFailed + 1;
            if nConsecutiveFailed > MAX_CONSECUTIVE_FAILURES &&
               nBlockWeight > (nBlockMaxWeight - 4000) % 0x1_0000_0000 {
              return;
            }
          case NotYet =>
          case Tried =>
            nConsecutiveFailed := 0;
        }
        UnchosenShrinks(chosen, inBlock, |pool.entries|);
        Shrunk(had, mapModifiedTx, iter);
      }
      if Ample(order) {
        AmpleListsAll(order);
        MinableIds(pool, fIncludeWitness);
        AllTracked(pool, wanted, inBlock, order, failedTx);
      }
    }

    /** One package: refused for its size or because it cannot be mined yet, and then out of the modified
        set, or tried. */
    method Consider(iter: nat, recorded: Modified, fUsingModified: bool, mapModifiedTx: map<nat, Modified>,
                    failedTx: set<nat>, ghost order: seq<nat>, ghost at: nat, ghost mi: nat, ghost wanted: set<nat>)
      returns (verdict: Verdict, m: map<nat, Modified>, failed: set<nat>)
      requires Valid() && Booked() && WithinLimits() && CanBeMined(inBlock) && ModifiedOk(pool, mapModifiedTx, inBlock)
      requires iter < |pool.entries| && iter !in inBlock && (fUsingModified <==> iter in mapModifiedTx)
      requires recorded == Start(pool, mapModifiedTx, iter) && wanted == Minable(pool, fIncludeWitness)
      requires MovesOn(order, at, mi, iter)
      requires Ample(order) ==> Tracks(pool, wanted, inBlock, order, at, mapModifiedTx, failedTx)
      modifies this
      ensures Valid() && Booked() && WithinLimits() && CanBeMined(inBlock) && ModifiedOk(pool, m, inBlock)
      ensures Continues(old(Begun()), old(executions)) && old(inBlock) <= inBlock
      ensures iter in inBlock || (m.Keys <= mapModifiedTx.Keys && iter !in m)
      ensures verdict.TooBig? ==> inBlock == old(inBlock) && !old(TestPackage(recorded.size, recorded.sigOps))
      ensures verdict.NotYet? ==> inBlock == old(inBlock) && iter !in wanted
      ensures verdict.Tried? ==> iter in wanted
      ensures Ample(order) ==>
                && Tracks(pool, wanted, inBlock, order, mi, m, failed)
                && nBlockWeight <= (nBlockMaxWeight - 4000) % 0x1_0000_0000
    {
      hide WellOrdered, Holds, Sum, Ancestors, PoolOk, Covers, EntryCovers, Accounted, Booked, WithinLimits, FromPool;
      hide Tracks, Ample, CanBeMined, Exact, ExactAt, Minable, All, NoContracts, TestPackageTransactions;
      m, failed := mapModifiedTx, failedTx;
      Refusable(iter);
      if !TestPackage(recorded.size, recorded.sigOps) {
        if Ample(order) {
          NeverGivesUp(order);
          if iter in wanted {
            TracksExact(pool, wanted, inBlock, order, at, m, failed, iter);
            AlwaysFits(order, m, iter);
          }
          RefuseTracks(pool, wanted, inBlock, order, at, mi, m, failed, iter);
        }
        verdict := TooBig;
      } else if !TestPackageTransactions(Package(pool, iter, inBlock)) {
        if Ample(order) {
          NeverGivesUp(order);
          RefuseTracks(pool, wanted, inBlock, order, at, mi, m, failed, iter);
        }
        verdict := NotYet;
      } else {
        RecordedCovers(pool, m, inBlock, iter, fUsingModified);
        m, failed := TryPackage(iter, recorded, fUsingModified, m, failed, wanted);
        if Ample(order) {
          AmpleListsAll(order);
          Refusable(iter);
          TryTracks(pool, wanted, old(inBlock), inBlock, order, at, mi, mapModifiedTx, m, failed, iter);
          NeverGivesUp(order);
        }
        return Tried, m, failed;
      }
      if fUsingModified {
        Erased(pool, m, inBlock, iter);
        m := m - {iter};
        failed := failed + {iter};
      }
    }

    /** The next entry to try: from the pool's order or from the modified set. */
    method PickNext(order: seq<nat>, mi: nat, mapModifiedTx: map<nat, Modified>)
      returns (fUsingModified: bool, iter: nat)
      requires mi <= |order| && (mi < |order| || mapModifiedTx != map[])
      ensures if fUsingModified then iter in mapModifiedTx else mi < |order| && iter == order[mi]
    {
      var better: bool := *;
      if mi == |order| || (mapModifiedTx != map[] && better) {
        NotEmpty(mapModifiedTx);
        var best :| best in mapModifiedTx;
        return true, best;
      }
      return false, order[mi];
    }

    /** resetBlock: the results of earlier contract executions are kept. */
    method ResetBlock()
      modifies this`inBlock, this`nBlockWeight, this`nBlockSigOpsCost, this`fIncludeWitness, this`nBlockTx, this`nFees,
               this`executions, this`carried, this`weightBefore, this`sigOpsBefore, this`firstStateRoot,
               this`firstUtxoRoot
      ensures inBlock == {} && nBlockWeight == 4000 && nBlockSigOpsCost == 400 && nBlockTx == 0 && nFees == 0
      ensures !fIncludeWitness
      ensures executions == [] && carried == refundSender - Total(refundOutputs) && weightBefore == sigOpsBefore == 0
      ensures firstStateRoot == stateRoot && firstUtxoRoot == utxoRoot
    {
      NoteBeginning();
      inBlock := {};
      nBlockWeight, nBlockSigOpsCost := 4000, 400;
      fIncludeWitness := false;
      nBlockTx, nFees := 0, 0;
    }

    ghost method NoteBeginning()
      modifies this`executions, this`carried, this`weightBefore, this`sigOpsBefore, this`firstStateRoot,
               this`firstUtxoRoot
      ensures executions == [] && carried == refundSender - Total(refundOutputs) && weightBefore == sigOpsBefore == 0
      ensures firstStateRoot == stateRoot && firstUtxoRoot == utxoRoot
    {
      executions, carried, weightBefore, sigOpsBefore := [], refundSender - Total(refundOutputs), 0, 0;
      firstStateRoot, firstUtxoRoot := stateRoot, utxoRoot;
    }

    /** A whole block: every chosen transaction once and after its ancestors, gas within the soft
        limit, exact weight and signature operations, the state roots put back, and a reward of the
        subsidy and the fees of what was chosen, less what executions withheld beyond their refunds,
        this block's and those carried over. It is exactly subsidy plus fees when each execution
        refunds what it withholds and nothing is carried over. */
    method CreateNewBlock(order: seq<nat>, witnessEnabled: bool) returns (hashStateRoot: nat, hashUTXORoot: nat)
      requires PoolOk(pool) && usedGas <= softBlockGasLimit
      requires forall i :: 0 <= i < |order| ==> order[i] < |pool.entries|
      modifies this
      ensures Valid() && Weighed() && Settled() && WithinLimits()
      ensures fIncludeWitness == witnessEnabled
      ensures forall x :: x in inBlock ==>
                x < |pool.entries| && pool.entries[x].finalTx && (witnessEnabled || !pool.entries[x].hasWitness)
      ensures Ample(order) ==> inBlock == Minable(pool, witnessEnabled)
      ensures stateRoot == old(stateRoot) && utxoRoot == old(utxoRoot)
      ensures if executions == [] then hashStateRoot == stateRoot && hashUTXORoot == utxoRoot else
                var last := executions[|executions| - 1];
                hashStateRoot == last.stateRoot && hashUTXORoot == last.utxoRoot
      ensures carried == old(refundSender - Total(refundOutputs))
      ensures var paid, earned := Total(vtx[ProofTx()].vout), subsidy + Sum(inBlock, Fees(pool));
              && paid == earned - refundSender + Total(refundOutputs) == earned - carried - Imbalance(executions)
              && (paid == earned <==> carried + Imbalance(executions) == 0)
              && (Balanced(executions) && carried == 0 ==> paid == earned)
      ensures NoContracts() ==>
                && (nBlockWeight == 4000 || nBlockWeight < nBlockMaxWeight)
                && (nBlockSigOpsCost == 400 || nBlockSigOpsCost < dgpMaxBlockSigOps)
    {
      hide WellOrdered, Holds, Sum, PoolOk, Weighed, WithinLimits, RewardOutputs, Total, SigOpsOf, Imbalance,
           ExecWeight, ExecSigOps;
      BeginBlock(witnessEnabled);
      var oldHashStateRoot, oldHashUTXORoot := stateRoot, utxoRoot;
      AddPackageTxs(order);
      hashStateRoot, hashUTXORoot := stateRoot, utxoRoot;
      ChosenIds();
      stateRoot, utxoRoot := oldHashStateRoot, oldHashUTXORoot;
      if NoContracts() {
        PlainLimits();
      }
      RebuildRefundTransaction();
      RewardTotal(originalReward, ProofTx(), nFees + subsidy, refundSender, refundOutputs);
      if Balanced(executions) {
        BalancedIsEven(executions);
      }
    }

    lemma ChosenIds()
      requires Valid() && CanBeMined(inBlock)
      ensures forall x :: x in inBlock ==>
                x < |pool.entries| && pool.entries[x].finalTx && (fIncludeWitness || !pool.entries[x].hasWitness)
    {
      hide PoolOk, WellOrdered, Holds, Sum;
      forall x | x in inBlock
        ensures x < |pool.entries|
      {
        BlockClosed(pool, vtx, inBlock, x);
      }
    }

    /** The dummy coinbase, and the dummy coinstake of a staked block. */
    method BeginBlock(witnessEnabled: bool)
      requires PoolOk(pool) && usedGas <= softBlockGasLimit
      modifies this
      ensures Valid() && Booked() && WithinLimits() && inBlock == {} && executions == []
      ensures usedGas == old(usedGas) && stateRoot == old(stateRoot) && utxoRoot == old(utxoRoot)
      ensures firstStateRoot == stateRoot && firstUtxoRoot == utxoRoot && fIncludeWitness == witnessEnabled
      ensures refundSender == old(refundSender) && refundOutputs == old(refundOutputs)
      ensures carried == refundSender - Total(refundOutputs) && Total(originalReward) == originalReward[ProofTx()].value
    {
      hide WellOrdered, Holds, Sum, PoolOk, Booked, WithinLimits, Total, SigOpsOf, Fees;
      ResetBlock();
      fIncludeWitness := witnessEnabled;
      var coinbase := if proofOfStake then [Out(0, 0)] else [Out(nFees + subsidy, payeeSigOps)];
      originalReward := if proofOfStake then [Out(0, 0), Out(-1, payeeSigOps)] else coinbase;
      vtx := if proofOfStake then [Reward(coinbase), Reward(originalReward)] else [Reward(coinbase)];
      EmptyBlock();
      OriginalTotal(originalReward, ProofTx());
    }

    lemma EmptyBlock()
      requires PoolOk(pool) && inBlock == {} && nBlockWeight == 4000 && nBlockSigOpsCost == 400 && nFees == 0
      requires executions == [] && carried == refundSender - Total(refundOutputs) && weightBefore == sigOpsBefore == 0
      requires ProofTx() < |vtx| && vtx[ProofTx()] == Reward(originalReward)
      requires firstStateRoot == stateRoot && firstUtxoRoot == utxoRoot
      requires forall i :: 0 <= i < |vtx| ==> vtx[i].Reward?
      ensures WellOrdered(pool, vtx) && Holds(vtx, inBlock) && nFees == Sum(inBlock, Fees(pool)) && Booked()
      ensures WithinLimits()
    {
      hide PoolOk;
      SumNone(Fees(pool));
      SumNone(Weights(pool));
      SumNone(SigOps(pool));
    }
  }

  lemma OriginalTotal(original: seq<Out>, k: nat)
    requires (k == 0 && |original| == 1) || (k == 1 && |original| == 2 && original[0].value == 0)
    ensures Total(original) == original[k].value
  {
    if k == 1 {
      var first := original[..1];
      assert first[..0] == [];
      assert Total(first) == Total([]) + original[0].value;
    } else {
      assert original[..0] == [];
    }
  }

  function TotalGas(calls: seq<Call>): int {
    if calls == [] then 0 else TotalGas(calls[..|calls| - 1]) + calls[|calls| - 1].gas
  }
}
