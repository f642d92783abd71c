/**
 * Block scanning: the addresses a block mentions, as the server collects
 * them before alerting, and the heights the block loop requests.
 */
module BlockScan {
  import opened Wrappers
  import opened Positional
  import opened Utils

  /** A contract of a transaction: its owner's hex address and its recipient's when the field is present. */
  datatype Contract = Contract(owner: string, to: Option<string>)

  datatype Transaction = Transaction(contracts: seq<Contract>)

  /** A block as the node returns it: whether it carries a header, and its transactions when the field is present. */
  datatype Block = Block(hasHeader: bool, transactions: Option<seq<Transaction>>)

  /** The node's answer to a request for a block: the request failed, or a reply. */
  datatype NodeReply = Failure | Reply(block: Block)

  /** A contract names a recipient when the field is present and not empty. */
  predicate HasRecipient(c: Contract)
  {
    c.to.Some? && c.to.value != ""
  }

  /** The contract's addresses are whole-byte hexadecimal text. */
  predicate WellFormedContract(c: Contract)
  {
    IsHex(c.owner) && (HasRecipient(c) ==> IsHex(c.to.value))
  }

  predicate WellFormedContracts(cs: seq<Contract>)
  {
    forall k :: 0 <= k < |cs| ==> WellFormedContract(cs[k])
  }

  predicate WellFormedTransactions(txs: seq<Transaction>)
  {
    forall t :: 0 <= t < |txs| ==> WellFormedContracts(txs[t].contracts)
  }

  predicate WellFormed(b: Block)
  {
    b.transactions.Some? ==> WellFormedTransactions(b.transactions.value)
  }

  /** The hexadecimal addresses a contract mentions, in the order the source records them: owner, then recipient. */
  function ContractHexes(c: Contract): seq<string>
  {
    [c.owner] + (if HasRecipient(c) then [c.to.value] else [])
  }

  /** The hexadecimal addresses the contracts mention, in order, repeats included. */
  function ContractsHexes(cs: seq<Contract>): seq<string>
  {
    if cs == [] then [] else ContractsHexes(cs[..|cs| - 1]) + ContractHexes(cs[|cs| - 1])
  }

  /** The hexadecimal addresses the transactions mention, in order, repeats included. */
  function TransactionsHexes(txs: seq<Transaction>): seq<string>
  {
    if txs == [] then [] else TransactionsHexes(txs[..|txs| - 1]) + ContractsHexes(txs[|txs| - 1].contracts)
  }

  /** The hexadecimal addresses the block mentions; none when it has no transactions field. */
  function BlockHexes(b: Block): seq<string>
  {
    if b.transactions.Some? then TransactionsHexes(b.transactions.value) else []
  }

  /** The base-58 address hexToBase58 gives a hexadecimal address; the source never converts other text. */
  function Address(sha256: Sha256): string -> string
  {
    h => if IsHex(h) then Base58Check(h, sha256) else ""
  }

  lemma AddressOfHex(sha256: Sha256, h: string)
    requires IsHex(h)
    ensures Address(sha256)(h) == Base58Check(h, sha256)
  {
  }

  /** The image under `f` of each address, in order. */
  function Images(hs: seq<string>, f: string -> string): (r: seq<string>)
    ensures |r| == |hs|
  {
    if hs == [] then [] else Images(hs[..|hs| - 1], f) + [f(hs[|hs| - 1])]
  }

  /** An address is an image exactly when it is the image of one of the addresses. */
  lemma {:induction false} ImagesMembers(hs: seq<string>, f: string -> string, a: string)
    ensures a in Images(hs, f) <==> exists h :: h in hs && a == f(h)
  {
    if hs != [] {
      var init := hs[..|hs| - 1];
      ImagesMembers(init, f, a);
      assert hs == init + [hs[|hs| - 1]];
    }
  }

  /** The images of addresses with one more at the end. */
  lemma ImagesSnoc(hs: seq<string>, h: string, f: string -> string)
    ensures Images(hs + [h], f) == Images(hs, f) + [f(h)]
  {
    assert (hs + [h])[..|hs|] == hs;
  }

  /** An address is among the contracts' addresses exactly when it is among those of one of them. */
  lemma {:induction false} ContractsHexesNamed(cs: seq<Contract>, h: string)
    ensures h in ContractsHexes(cs) <==> exists k :: 0 <= k < |cs| && h in ContractHexes(cs[k])
  {
    if cs != [] {
      var init := cs[..|cs| - 1];
      ContractsHexesNamed(init, h);
      if h in ContractsHexes(cs) && h !in ContractHexes(cs[|cs| - 1]) {
        var k :| 0 <= k < |init| && h in ContractHexes(init[k]);
        assert cs[k] == init[k];
      }
      if exists k :: 0 <= k < |cs| && h in ContractHexes(cs[k]) {
        var k :| 0 <= k < |cs| && h in ContractHexes(cs[k]);
        if k < |init| {
          assert init[k] == cs[k];
        }
      }
    }
  }

  /** An address is among the transactions' addresses exactly when it is among those of one of their contracts. */
  lemma {:induction false} TransactionsHexesNamed(txs: seq<Transaction>, h: string)
    ensures h in TransactionsHexes(txs) <==>
      exists t, k :: 0 <= t < |txs| && 0 <= k < |txs[t].contracts| && h in ContractHexes(txs[t].contracts[k])
  {
    if txs != [] {
      var init := txs[..|txs| - 1];
      var last := txs[|txs| - 1];
      TransactionsHexesNamed(init, h);
      ContractsHexesNamed(last.contracts, h);
      if h in TransactionsHexes(txs) {
        if h in ContractsHexes(last.contracts) {
          var k :| 0 <= k < |last.contracts| && h in ContractHexes(last.contracts[k]);
          assert 0 <= |txs| - 1 < |txs| && h in ContractHexes(txs[|txs| - 1].contracts[k]);
        } else {
          var t, k :| 0 <= t < |init| && 0 <= k < |init[t].contracts| && h in ContractHexes(init[t].contracts[k]);
          assert txs[t] == init[t];
        }
      }
      if exists t, k :: 0 <= t < |txs| && 0 <= k < |txs[t].contracts| && h in ContractHexes(txs[t].contracts[k]) {
        var t, k :| 0 <= t < |txs| && 0 <= k < |txs[t].contracts| && h in ContractHexes(txs[t].contracts[k]);
        if t < |init| {
          assert init[t] == txs[t];
        } else {
          assert exists k' :: 0 <= k' < |last.contracts| && h in ContractHexes(last.contracts[k']);
        }
      }
    }
  }

  /** Recording `x` as a key: added at the end unless it is a key already. */
  function Put<T(==)>(keys: seq<T>, x: T): seq<T>
  {
    if x in keys then keys else keys + [x]
  }

  /** The elements of `s` in the order they first occur, each once. */
  function Dedup<T(==,!new)>(s: seq<T>): (r: seq<T>)
    ensures forall x :: x in r <==> x in s
    ensures Distinct(r)
  {
    if s == [] then [] else Put(Dedup(s[..|s| - 1]), s[|s| - 1])
  }

  /** Dedup of a longer sequence records the new element as a key. */
  lemma DedupSnoc<T(!new)>(s: seq<T>, x: T)
    ensures Dedup(s + [x]) == Put(Dedup(s), x)
  {
    assert (s + [x])[..|s|] == s;
  }

  /** The distinct images under `f` of the addresses the block mentions, in first-mention order. */
  function Collected(b: Block, f: string -> string): seq<string>
  {
    Dedup(Images(BlockHexes(b), f))
  }

  /** The addresses processBlock alerts. */
  function BlockAddresses(b: Block, sha256: Sha256): seq<string>
  {
    Collected(b, Address(sha256))
  }

  /** `a` is the image under `f` of the contract's owner or of its recipient. */
  predicate Names(c: Contract, a: string, f: string -> string)
  {
    a == f(c.owner) || (HasRecipient(c) && a == f(c.to.value))
  }

  /**
   * processBlock alerts each address at most once, and exactly the
   * addresses some contract of the block names as owner or recipient;
   * `f` stands for the address conversion, `Address(sha256)`.
   */
  lemma CollectedNamed(b: Block, f: string -> string, a: string)
    requires b.transactions.Some?
    ensures Distinct(Collected(b, f))
    ensures a in Collected(b, f) <==>
      exists t, k :: 0 <= t < |b.transactions.value| && 0 <= k < |b.transactions.value[t].contracts| &&
        Names(b.transactions.value[t].contracts[k], a, f)
  {
    var txs := b.transactions.value;
    var hs := TransactionsHexes(txs);
    ImagesMembers(hs, f, a);
    if a in Collected(b, f) {
      var h :| h in hs && a == f(h);
      TransactionsHexesNamed(txs, h);
      var t, k :| 0 <= t < |txs| && 0 <= k < |txs[t].contracts| && h in ContractHexes(txs[t].contracts[k]);
      assert Names(txs[t].contracts[k], a, f);
    }
    if exists t, k :: 0 <= t < |txs| && 0 <= k < |txs[t].contracts| && Names(txs[t].contracts[k], a, f) {
      var t, k :| 0 <= t < |txs| && 0 <= k < |txs[t].contracts| && Names(txs[t].contracts[k], a, f);
      var c := txs[t].contracts[k];
      var h := if a == f(c.owner) then c.owner else c.to.value;
      assert h in ContractHexes(c);
      TransactionsHexesNamed(txs, h);
    }
  }

  /** A block without a transactions field alerts nothing. */
  lemma CollectedNone(b: Block, f: string -> string)
    requires b.transactions.None?
    ensures Collected(b, f) == []
  {
  }

  /**
   * The loop of processBlock: every owner address, and every recipient
   * address present, recorded as a key of `hashmap`, whose keys are then
   * the addresses to alert. The keys are kept as a sequence in the order
   * they are first recorded.
   */
  method CollectAddresses(b: Block, sha256: Sha256) returns (addresses: seq<string>)
    requires WellFormed(b)
    ensures addresses == BlockAddresses(b, sha256)
  {
    var f := Address(sha256);
    var hashmap: seq<string> := [];
    if b.transactions.Some? {
      var txs := b.transactions.value;
      for t := 0 to |txs|
        invariant hashmap == Dedup(Images(TransactionsHexes(txs[..t]), f))
      {
        hashmap := RecordTransaction(hashmap, TransactionsHexes(txs[..t]), txs[t].contracts, sha256);
        TransactionsHexesPrefix(txs, t);
      }
      assert txs[..|txs|] == txs;
    }
    addresses := hashmap;
  }

  /** The contracts of one transaction, in order, as the inner loop of processBlock records them. */
  method RecordTransaction(hashmap: seq<string>, ghost before: seq<string>, cs: seq<Contract>, sha256: Sha256)
    returns (r: seq<string>)
    requires WellFormedContracts(cs)
    requires hashmap == Dedup(Images(before, Address(sha256)))
    ensures r == Dedup(Images(before + ContractsHexes(cs), Address(sha256)))
  {
    var f := Address(sha256);
    r := hashmap;
    assert before + ContractsHexes(cs[..0]) == before;
    for k := 0 to |cs|
      invariant r == Dedup(Images(before + ContractsHexes(cs[..k]), f))
    {
      ghost var seen := before + ContractsHexes(cs[..k]);
      r := RecordContract(r, seen, cs[k], sha256);
      ContractsHexesPrefix(cs, k);
      ConcatAssoc(before, ContractsHexes(cs[..k]), ContractHexes(cs[k]));
    }
    assert cs[..|cs|] == cs;
  }

  lemma ContractsHexesPrefix(cs: seq<Contract>, k: nat)
    requires k < |cs|
    ensures ContractsHexes(cs[..k + 1]) == ContractsHexes(cs[..k]) + ContractHexes(cs[k])
  {
    assert cs[..k + 1][..k] == cs[..k];
  }

  lemma TransactionsHexesPrefix(txs: seq<Transaction>, t: nat)
    requires t < |txs|
    ensures TransactionsHexes(txs[..t + 1]) == TransactionsHexes(txs[..t]) + ContractsHexes(txs[t].contracts)
  {
    assert txs[..t + 1][..t] == txs[..t];
  }

  /** One contract of the loop of processBlock: its owner's address, then its recipient's if it names one. */
  method RecordContract(hashmap: seq<string>, ghost seen: seq<string>, c: Contract, sha256: Sha256) returns (r: seq<string>)
    requires WellFormedContract(c)
    requires hashmap == Dedup(Images(seen, Address(sha256)))
    ensures r == Dedup(Images(seen + ContractHexes(c), Address(sha256)))
  {
    var f := Address(sha256);
    var from := HexToBase58(c.owner, sha256);
    AddressOfHex(sha256, c.owner);
    ImagesSnoc(seen, c.owner, f);
    DedupSnoc(Images(seen, f), from);
    r := Put(hashmap, from);
    if HasRecipient(c) {
      var to := HexToBase58(c.to.value, sha256);
      AddressOfHex(sha256, c.to.value);
      ImagesSnoc(seen + [c.owner], c.to.value, f);
      DedupSnoc(Images(seen + [c.owner], f), to);
      r := Put(r, to);
      ConcatAssoc(seen, [c.owner], [c.to.value]);
    } else {
      assert ContractHexes(c) == [c.owner];
    }
  }

  /** The reply carries a block with a header: the block exists and is processed. */
  predicate HasBlock(reply: NodeReply)
  {
    reply.Reply? && reply.block.hasHeader
  }

  /** The stored height after one step of the block loop from `height` on the node's `reply`. */
  function NextHeight(height: int, reply: NodeReply): int
  {
    if HasBlock(reply) then height + 1 else height
  }

  /** The number of replies that carry a block. */
  function Processed(replies: seq<NodeReply>): nat
  {
    if replies == [] then 0 else (if HasBlock(replies[0]) then 1 else 0) + Processed(replies[1..])
  }

  /** The heights the block loop requests, from stored height `height`, given the node's successive replies. */
  function Requests(height: int, replies: seq<NodeReply>): (r: seq<int>)
    ensures |r| == |replies|
    decreases replies
  {
    if replies == [] then [] else [height + 1] + Requests(NextHeight(height, replies[0]), replies[1..])
  }

  /**
   * The block loop requests the heights in sequence: the `i`-th request is
   * for the height after the stored one plus the blocks processed before
   * it, so a height is asked for again until its block arrives and none is
   * skipped.
   */
  lemma {:induction false} RequestsInSequence(height: int, replies: seq<NodeReply>)
    ensures forall i :: 0 <= i < |replies| ==> Requests(height, replies)[i] == height + 1 + Processed(replies[..i])
    decreases replies
  {
    if replies != [] {
      var next := NextHeight(height, replies[0]);
      RequestsInSequence(next, replies[1..]);
      forall i | 0 <= i < |replies|
        ensures Requests(height, replies)[i] == height + 1 + Processed(replies[..i])
      {
        if i > 0 {
          assert replies[..i][1..] == replies[1..][..i - 1];
          assert Requests(height, replies)[i] == Requests(next, replies[1..])[i - 1];
        }
      }
    }
  }

  /** From step `i` on, the loop asks for the height after the current one and goes on from the next height. */
  lemma RequestsFrom(height: int, replies: seq<NodeReply>, i: nat)
    requires i < |replies|
    ensures Requests(height, replies[i..]) == [height + 1] + Requests(NextHeight(height, replies[i]), replies[i + 1..])
    ensures Processed(replies[i..]) == (if HasBlock(replies[i]) then 1 else 0) + Processed(replies[i + 1..])
  {
    assert replies[i..][1..] == replies[i + 1..];
  }

  /**
   * One step of the block loop from height `height` at step `i`, with the
   * requests `done` so far: the request for `height + 1` joins them and
   * the rest follow from the next height.
   */
  lemma RequestsAdvance(start: int, replies: seq<NodeReply>, i: nat, height: int, done: seq<int>)
    requires i < |replies|
    requires done + Requests(height, replies[i..]) == Requests(start, replies)
    requires height + Processed(replies[i..]) == start + Processed(replies)
    ensures (done + [height + 1]) + Requests(NextHeight(height, replies[i]), replies[i + 1..]) == Requests(start, replies)
    ensures NextHeight(height, replies[i]) + Processed(replies[i + 1..]) == start + Processed(replies)
  {
    RequestsFrom(height, replies, i);
    ConcatAssoc(done, [height + 1], Requests(NextHeight(height, replies[i]), replies[i + 1..]));
  }

  /** Consecutive requests are for the same height, or the next one after a block arrived. */
  lemma NoSkips(height: int, replies: seq<NodeReply>, i: nat)
    requires i + 1 < |replies|
    ensures Requests(height, replies)[i + 1] == Requests(height, replies)[i] + (if HasBlock(replies[i]) then 1 else 0)
  {
    RequestsInSequence(height, replies);
    ProcessedSnoc(replies[..i], replies[i]);
    assert replies[..i + 1] == replies[..i] + [replies[i]];
  }

  /** One more reply counts one more processed block if it carries one. */
  lemma {:induction false} ProcessedSnoc(replies: seq<NodeReply>, r: NodeReply)
    ensures Processed(replies + [r]) == Processed(replies) + (if HasBlock(r) then 1 else 0)
  {
    if replies != [] {
      ProcessedSnoc(replies[1..], r);
      assert (replies + [r])[1..] == replies[1..] + [r];
    }
  }
}
