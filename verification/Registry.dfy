// contracts/src/EVMFSNames.sol: the name registry, with a fee recipient that
// may call back into it before a registration finishes.
module Registry {
  import opened Evmfs

  const REGISTRATION_FEE: nat := 1_000_000_000_000_000  // 0.001 ether in wei
  const ZERO_ADDRESS: Address := 0
  const MAX_NAME_LENGTH: nat := 32

  datatype Site = Site(blockNumber: nat, manifestHash: Hash)

  /** A write to `sites`: who made it, and whom the EVMFS contract named as the
      manifest's uploader at that moment. */
  datatype SiteWrite = SiteWrite(token: Hash, author: Address, site: Site, uploader: Option<Address>)

  // ---------- Names ----------

  predicate IsLetterOrDigit(c: byte) {
    0x61 <= c <= 0x7A || 0x30 <= c <= 0x39
  }

  /** a-z and 0-9, hyphens only inside. */
  predicate GoodBytes(name: Bytes) {
    forall i :: 0 <= i < |name| ==> IsLetterOrDigit(name[i]) || (name[i] == 0x2D && 0 < i < |name| - 1)
  }

  predicate ValidName(name: Bytes) {
    0 < |name| <= MAX_NAME_LENGTH && GoodBytes(name)
  }

  /** The characters a name is made of. */
  ghost predicate IsNameCharacter(c: char) {
    || c in {'a', 'b', 'c', 'd', 'e', 'f', 'g', 'h', 'i', 'j', 'k', 'l', 'm'}
    || c in {'n', 'o', 'p', 'q', 'r', 's', 't', 'u', 'v', 'w', 'x', 'y', 'z'}
    || c in {'0', '1', '2', '3', '4', '5', '6', '7', '8', '9'}
  }

  /** One to 32 bytes, each such a character or a hyphen inside. */
  ghost predicate IsName(name: Bytes) {
    && 1 <= |name| <= 32
    && forall i :: 0 <= i < |name| ==>
         IsNameCharacter(name[i] as char) || (name[i] as char == '-' && 0 < i < |name| - 1)
  }

  lemma {:induction false} NameCharactersExactly(c: byte)
    ensures IsLetterOrDigit(c) <==> IsNameCharacter(c as char)
  {
  }

  lemma {:induction false} ValidNameExactly(name: Bytes)
    ensures ValidName(name) <==> IsName(name)
  {
    forall i | 0 <= i < |name|
      ensures IsLetterOrDigit(name[i]) <==> IsNameCharacter(name[i] as char)
    {
      NameCharactersExactly(name[i]);
    }
  }

  method IsValidName(siteName: Bytes) returns (ok: bool)
    ensures ok == GoodBytes(siteName)
  {
    for i := 0 to |siteName|
      invariant forall k :: 0 <= k < i ==>
                  IsLetterOrDigit(siteName[k]) || (siteName[k] == 0x2D && 0 < k < |siteName| - 1)
    {
      var c := siteName[i];
      if 0x61 <= c <= 0x7A { continue; }
      if 0x30 <= c <= 0x39 { continue; }
      if c == 0x2D && i > 0 && i < |siteName| - 1 { continue; }
      return false;
    }
    return true;
  }

  /** The site a token was last pointed at. */
  function LastWrite(writes: seq<SiteWrite>, token: Hash): Option<Site> {
    if writes == [] then None
    else if writes[|writes| - 1].token == token then Some(writes[|writes| - 1].site)
    else LastWrite(writes[..|writes| - 1], token)
  }

  ghost predicate NoRepeats(tokens: seq<Hash>) {
    forall i, j :: 0 <= i < j < |tokens| ==> tokens[i] != tokens[j]
  }

  /** Everything a transaction may change, for reverting. */
  datatype Storage = Storage(contractOwner: Address, feeRecipient: Address,
                             owners: map<Hash, Address>, approved: map<Hash, Address>,
                             operators: set<(Address, Address)>,
                             sites: map<Hash, Site>, names: map<Hash, Bytes>, balance: nat,
                             log: seq<StoreEvent>, manifests: map<Hash, Address>, height: nat)

  /** What has happened so far: tokens in the order they were minted, writes to
      `sites`, and the wei that came in with registrations and went out again. */
  datatype History = History(registered: seq<Hash>, writes: seq<SiteWrite>, taken: nat, sent: nat)

  /** A token is minted iff it has a site and a name; its name is valid and
      hashes to it; and it was minted once. */
  ghost predicate Tables(owners: map<Hash, Address>, sites: map<Hash, Site>, names: map<Hash, Bytes>,
                         registered: seq<Hash>) {
    && owners.Keys == sites.Keys == names.Keys == (set t <- registered)
    && NoRepeats(registered)
    && (forall t <- names :: ValidName(names[t]) && Keccak256(names[t]) == t)
    && (forall t <- owners :: owners[t] != ZERO_ADDRESS)
  }

  /** A site is the last one written for its token, and every write was made by
      the manifest's uploader of the day. */
  ghost predicate Authorised(sites: map<Hash, Site>, writes: seq<SiteWrite>) {
    && (forall t <- sites :: LastWrite(writes, t) == Some(sites[t]))
    && (forall w <- writes :: w.uploader == Some(w.author))
  }

  ghost predicate Consistent(owners: map<Hash, Address>, sites: map<Hash, Site>, names: map<Hash, Bytes>,
                             registered: seq<Hash>, writes: seq<SiteWrite>) {
    Tables(owners, sites, names, registered) && Authorised(sites, writes)
  }

  lemma {:induction false} MintKeepsTables(owners: map<Hash, Address>, sites: map<Hash, Site>, names: map<Hash, Bytes>,
                                           registered: seq<Hash>, sender: Address, siteName: Bytes, site: Site)
    requires Tables(owners, sites, names, registered)
    requires ValidName(siteName) && sender != ZERO_ADDRESS && Keccak256(siteName) !in owners
    ensures var t := Keccak256(siteName);
            Tables(owners[t := sender], sites[t := site], names[t := siteName], registered + [t])
  {
  }

  lemma {:induction false} WriteKeepsAuthorised(sites: map<Hash, Site>, writes: seq<SiteWrite>, sender: Address,
                                                t: Hash, site: Site)
    requires Authorised(sites, writes)
    ensures Authorised(sites[t := site], writes + [SiteWrite(t, sender, site, Some(sender))])
  {
  }

  lemma {:induction false} MintKeepsConsistent(owners: map<Hash, Address>, sites: map<Hash, Site>,
                                               names: map<Hash, Bytes>, registered: seq<Hash>, writes: seq<SiteWrite>,
                                               sender: Address, siteName: Bytes, site: Site)
    requires Consistent(owners, sites, names, registered, writes)
    requires ValidName(siteName) && sender != ZERO_ADDRESS && Keccak256(siteName) !in owners
    ensures var t := Keccak256(siteName);
            Consistent(owners[t := sender], sites[t := site], names[t := siteName],
                       registered + [t], writes + [SiteWrite(t, sender, site, Some(sender))])
  {
    MintKeepsTables(owners, sites, names, registered, sender, siteName, site);
    WriteKeepsAuthorised(sites, writes, sender, Keccak256(siteName), site);
  }

  lemma {:induction false} UpdateKeepsConsistent(owners: map<Hash, Address>, sites: map<Hash, Site>,
                                                 names: map<Hash, Bytes>, registered: seq<Hash>,
                                                 writes: seq<SiteWrite>, sender: Address, t: Hash, site: Site)
    requires Consistent(owners, sites, names, registered, writes) && t in owners
    ensures Consistent(owners, sites[t := site], names, registered, writes + [SiteWrite(t, sender, site, Some(sender))])
  {
    WriteKeepsAuthorised(sites, writes, sender, t, site);
  }

  lemma {:induction false} MoveKeepsConsistent(owners: map<Hash, Address>, sites: map<Hash, Site>,
                                               names: map<Hash, Bytes>, registered: seq<Hash>,
                                               writes: seq<SiteWrite>, t: Hash, to: Address)
    requires Consistent(owners, sites, names, registered, writes) && t in owners && to != ZERO_ADDRESS
    ensures Consistent(owners[t := to], sites, names, registered, writes)
  {
    assert owners[t := to].Keys == owners.Keys;
  }

  /** Two entries of the registration history never name the same name. */
  lemma {:induction false} RegisteredOnce(owners: map<Hash, Address>, sites: map<Hash, Site>, names: map<Hash, Bytes>,
                                          registered: seq<Hash>, writes: seq<SiteWrite>, i: nat, j: nat)
    requires Consistent(owners, sites, names, registered, writes)
    requires i < |registered| && j < |registered|
    ensures registered[i] in names && registered[j] in names
    ensures names[registered[i]] == names[registered[j]] ==> i == j
  {
    assert registered[i] in registered && registered[j] in registered;
  }

  class Names {
    const self: Address
    const evmfs: Chain
    var contractOwner: Address                // Ownable's owner; 0 once renounced
    var feeRecipient: Address
    var owners: map<Hash, Address>            // ERC-721; a token is minted iff it has an owner
    var approved: map<Hash, Address>          // ERC-721, per token
    var operators: set<(Address, Address)>    // ERC-721, (owner, operator)
    var sites: map<Hash, Site>
    var names: map<Hash, Bytes>
    var balance: nat                          // wei held by this contract
    ghost var history: History

    ghost predicate Valid()
      reads this, evmfs
    {
      && evmfs.Valid()
      && Consistent(owners, sites, names, history.registered, history.writes)
      && history.taken == history.sent
    }

    /** What no transaction, finished or in progress, ever undoes. */
    twostate predicate Kept()
      reads this, evmfs
    {
      && old(history.registered) <= history.registered
      && (forall t <- old(names) :: t in names && names[t] == old(names)[t])
      && old(history.writes) <= history.writes
      && old(evmfs.log) <= evmfs.log
      && balance == old(balance)
    }

    function Snapshot(): Storage
      reads this, evmfs
    {
      Storage(contractOwner, feeRecipient, owners, approved, operators, sites, names, balance,
              evmfs.log, evmfs.manifests, evmfs.height)
    }

    /** A reverted transaction leaves nothing behind. */
    twostate predicate Reverted()
      reads this, evmfs
    {
      Snapshot() == old(Snapshot()) && history == old(history)
    }

    constructor (self: Address, evmfs: Chain, deployer: Address, feeRecipient: Address)
      requires evmfs.Valid()
      ensures Valid() && this.evmfs == evmfs && this.self == self
      ensures history == History([], [], 0, 0) && balance == 0 && contractOwner == deployer
    {
      this.self, this.evmfs := self, evmfs;
      contractOwner, this.feeRecipient := deployer, feeRecipient;
      owners, approved, operators, sites, names, balance := map[], map[], {}, map[], map[], 0;
      history := History([], [], 0, 0);
    }

    predicate IsUploader(sender: Address, manifestHash: Hash)
      reads evmfs
    {
      manifestHash in evmfs.manifests && evmfs.manifests[manifestHash] == sender
    }

    // Everything `register` checks before it touches the state.
    predicate MayRegister(sender: Address, value: nat, siteName: Bytes, manifestHash: Hash)
      reads this, evmfs
    {
      && value >= REGISTRATION_FEE
      && ValidName(siteName)
      && IsUploader(sender, manifestHash)
      && Keccak256(siteName) !in owners
    }

    /** `calls` bounds how deep called code may nest; it is arbitrary. */
    method Register(sender: Address, value: nat, siteName: Bytes, blockNumber: nat, manifestHash: Hash, calls: nat)
      returns (ok: bool, ghost sent: bool)
      requires Valid() && sender != ZERO_ADDRESS
      modifies this, evmfs
      ensures Valid() && Kept()
      ensures ok <==> old(MayRegister(sender, value, siteName, manifestHash)) && sent
      ensures ok ==> value >= 1_000_000_000_000_000 && IsName(siteName) && Keccak256(siteName) !in old(names)
      ensures sent && value >= 1_000_000_000_000_000 && IsName(siteName) && old(IsUploader(sender, manifestHash)) ==>
                (ok <==> Keccak256(siteName) !in old(names))
      ensures !ok ==> Reverted()
      ensures ok ==> old(history.registered) + [Keccak256(siteName)] <= history.registered
      ensures ok ==> Keccak256(siteName) in names && names[Keccak256(siteName)] == siteName
      ensures ok ==> old(history.writes)
                     + [SiteWrite(Keccak256(siteName), sender, Site(blockNumber, manifestHash), Some(sender))]
                     <= history.writes
      decreases calls, 1
    {
      ValidNameExactly(siteName);
      sent := false;
      if value < REGISTRATION_FEE { return false, false; }
      if |siteName| == 0 || |siteName| > MAX_NAME_LENGTH { return false, false; }
      var good := IsValidName(siteName);
      if !good { return false, false; }
      if !IsUploader(sender, manifestHash) { return false, false; }
      var tokenId := Keccak256(siteName);
      if tokenId in owners { return false, false; }

      // A failed call at the end undoes all of this, nested calls included.
      var before := Snapshot();
      ghost var past := history;
      Mint(sender, value, siteName, Site(blockNumber, manifestHash));
      var accepted := false;
      if feeRecipient != self {
        accepted := OtherCodeRuns(calls);
      }
      if !accepted {
        Revert(before, past);
        return false, false;
      }
      return true, true;
    }

    /** The writes of `register`, and the fee's way in and out. */
    method Mint(sender: Address, value: nat, siteName: Bytes, site: Site)
      requires Valid() && MayRegister(sender, value, siteName, site.manifestHash) && sender != ZERO_ADDRESS
      modifies this
      ensures Valid() && Kept()
      ensures names == old(names)[Keccak256(siteName) := siteName]
      ensures owners == old(owners)[Keccak256(siteName) := sender]
      ensures history == History(old(history.registered) + [Keccak256(siteName)],
                                 old(history.writes) + [SiteWrite(Keccak256(siteName), sender, site, Some(sender))],
                                 old(history.taken) + value, old(history.sent) + value)
      ensures feeRecipient == old(feeRecipient) && contractOwner == old(contractOwner)
    {
      TakeFee(value);
      MintToken(sender, siteName, site);
      SendFee(value);
    }

    method MintToken(sender: Address, siteName: Bytes, site: Site)
      requires Consistent(owners, sites, names, history.registered, history.writes)
      requires ValidName(siteName) && IsUploader(sender, site.manifestHash)
      requires Keccak256(siteName) !in owners && sender != ZERO_ADDRESS
      modifies this`owners, this`names, this`sites, this`history
      ensures Consistent(owners, sites, names, history.registered, history.writes)
      ensures names == old(names)[Keccak256(siteName) := siteName]
      ensures owners == old(owners)[Keccak256(siteName) := sender]
      ensures history == old(history).(
                registered := old(history.registered) + [Keccak256(siteName)],
                writes := old(history.writes) + [SiteWrite(Keccak256(siteName), sender, site, Some(sender))])
    {
      MintKeepsConsistent(owners, sites, names, history.registered, history.writes, sender, siteName, site);
      var tokenId := Keccak256(siteName);
      owners, names, sites := owners[tokenId := sender], names[tokenId := siteName], sites[tokenId := site];
      history := history.(
        registered := history.registered + [tokenId],
        writes := history.writes + [SiteWrite(tokenId, sender, site, Some(evmfs.manifests[site.manifestHash]))]);
    }

    method TakeFee(value: nat)
      modifies this`balance, this`history
      ensures balance == old(balance) + value && history == old(history).(taken := old(history.taken) + value)
    {
      balance, history := balance + value, history.(taken := history.taken + value);
    }

    method SendFee(value: nat)
      requires value <= balance
      modifies this`balance, this`history
      ensures balance == old(balance) - value && history == old(history).(sent := old(history.sent) + value)
    {
      balance, history := balance - value, history.(sent := history.sent + value);
    }

    method Revert(before: Storage, ghost past: History)
      modifies this, evmfs
      ensures Snapshot() == before && history == past
    {
      RevertNames(before, past);
      evmfs.log, evmfs.manifests, evmfs.height := before.log, before.manifests, before.height;
    }

    method RevertNames(before: Storage, ghost past: History)
      modifies this
      ensures Snapshot() == before.(log := evmfs.log, manifests := evmfs.manifests, height := evmfs.height)
      ensures history == past
    {
      contractOwner, feeRecipient, balance := before.contractOwner, before.feeRecipient, before.balance;
      owners, approved, operators := before.owners, before.approved, before.operators;
      sites, names, history := before.sites, before.names, past;
    }

    method Update(sender: Address, siteName: Bytes, blockNumber: nat, manifestHash: Hash) returns (ok: bool)
      requires Valid()
      modifies this`sites, this`history
      ensures Valid() && Kept()
      ensures ok <==> Keccak256(siteName) in owners && owners[Keccak256(siteName)] == sender
                      && IsUploader(sender, manifestHash)
      ensures !ok ==> Reverted()
      ensures history.registered == old(history.registered)
      ensures ok ==> sites == old(sites)[Keccak256(siteName) := Site(blockNumber, manifestHash)]
    {
      var tokenId := Keccak256(siteName);
      if tokenId !in owners || owners[tokenId] != sender { return false; }
      if !IsUploader(sender, manifestHash) { return false; }
      var site := Site(blockNumber, manifestHash);
      UpdateKeepsConsistent(owners, sites, names, history.registered, history.writes, sender, tokenId, site);
      sites := sites[tokenId := site];
      history := history.(
        writes := history.writes + [SiteWrite(tokenId, sender, site, Some(evmfs.manifests[manifestHash]))]);
      return true;
    }

    // ---------- ERC-721 (EIP-721) ----------

    /** Who may move a token: its owner, an operator of the owner, or whoever is
        approved for it. */
    predicate MayTransfer(spender: Address, token: Hash)
      requires token in owners
      reads this
    {
      || spender == owners[token]
      || (owners[token], spender) in operators
      || (token in approved && approved[token] == spender && spender != ZERO_ADDRESS)
    }

    method Approve(sender: Address, to: Address, token: Hash) returns (ok: bool)
      requires Valid()
      modifies this`approved
      ensures Valid() && Kept()
      ensures ok <==> token in owners && (sender == owners[token] || (owners[token], sender) in operators)
      ensures approved == if ok then old(approved)[token := to] else old(approved)
    {
      if token !in owners || !(sender == owners[token] || (owners[token], sender) in operators) { return false; }
      approved := approved[token := to];
      return true;
    }

    method SetApprovalForAll(sender: Address, operator: Address, allowed: bool) returns (ok: bool)
      requires Valid()
      modifies this`operators
      ensures Valid() && Kept()
      ensures ok <==> operator != ZERO_ADDRESS
      ensures operators == if !ok then old(operators)
                           else if allowed then old(operators) + {(sender, operator)}
                           else old(operators) - {(sender, operator)}
    {
      if operator == ZERO_ADDRESS { return false; }
      operators := if allowed then operators + {(sender, operator)} else operators - {(sender, operator)};
      return true;
    }

    predicate MayMove(sender: Address, from: Address, to: Address, token: Hash)
      reads this
    {
      to != ZERO_ADDRESS && token in owners && MayTransfer(sender, token) && owners[token] == from
    }

    /** Moves the token and forgets who was approved for it. */
    method TransferFrom(sender: Address, from: Address, to: Address, token: Hash) returns (ok: bool)
      requires Valid()
      modifies this`owners, this`approved
      ensures Valid() && Kept()
      ensures ok <==> old(MayMove(sender, from, to, token))
      ensures ok <==> && to != ZERO_ADDRESS && token in old(owners) && old(owners)[token] == from
                      && (|| sender == from || (from, sender) in old(operators)
                          || (token in old(approved) && old(approved)[token] == sender != ZERO_ADDRESS))
      ensures owners == if ok then old(owners)[token := to] else old(owners)
      ensures approved == if ok then old(approved) - {token} else old(approved)
    {
      ok := MayMove(sender, from, to, token);
      if ok {
        MoveKeepsConsistent(owners, sites, names, history.registered, history.writes, token, to);
        owners, approved := owners[token := to], approved - {token};
      }
    }

    /** A transfer that asks the receiver's code, which may call back. */
    method SafeTransferFrom(sender: Address, from: Address, to: Address, token: Hash, toIsContract: bool, calls: nat)
      returns (ok: bool)
      requires Valid()
      modifies this, evmfs
      ensures Valid() && Kept()
      ensures ok ==> old(MayMove(sender, from, to, token))
      ensures !toIsContract && old(MayMove(sender, from, to, token)) ==> ok
      ensures ok && !toIsContract ==> owners == old(owners)[token := to]
      ensures !ok ==> Reverted()
      decreases calls, 1
    {
      var before := Snapshot();
      ghost var past := history;
      ok := TransferFrom(sender, from, to, token);
      if ok && toIsContract {
        ok := OtherCodeRuns(calls);
        if !ok {
          Revert(before, past);
        }
      }
    }

    // ---------- Ownership of the contract ----------

    method TransferOwnership(sender: Address, newOwner: Address) returns (ok: bool)
      requires Valid()
      modifies this`contractOwner
      ensures Valid() && Kept()
      ensures ok <==> sender == old(contractOwner) && newOwner != ZERO_ADDRESS
      ensures contractOwner == if ok then newOwner else old(contractOwner)
    {
      if sender != contractOwner || newOwner == ZERO_ADDRESS { return false; }
      contractOwner := newOwner;
      return true;
    }

    method RenounceOwnership(sender: Address) returns (ok: bool)
      requires Valid()
      modifies this`contractOwner
      ensures Valid() && Kept()
      ensures ok <==> sender == old(contractOwner)
      ensures contractOwner == if ok then ZERO_ADDRESS else old(contractOwner)
    {
      if sender != contractOwner { return false; }
      contractOwner := ZERO_ADDRESS;
      return true;
    }

    method SetFeeRecipient(sender: Address, recipient: Address) returns (ok: bool)
      requires Valid()
      modifies this`feeRecipient
      ensures Valid() && Kept()
      ensures ok <==> sender == contractOwner
      ensures feeRecipient == if ok then recipient else old(feeRecipient)
    {
      if sender != contractOwner { return false; }
      feeRecipient := recipient;
      return true;
    }

    /** Whoever asks for a name gets its owner and site, or nobody and nothing. */
    method Lookup(siteName: Bytes) returns (owner: Address, site: Option<Site>)
      requires Valid()
      ensures owner == ZERO_ADDRESS <==> Keccak256(siteName) !in names
      ensures owner != ZERO_ADDRESS ==> owner == owners[Keccak256(siteName)] && names[Keccak256(siteName)] == siteName
      ensures site == if owner == ZERO_ADDRESS then None else LastWrite(history.writes, Keccak256(siteName))
    {
      var tokenId := Keccak256(siteName);
      owner := if tokenId in owners then owners[tokenId] else ZERO_ADDRESS;
      site := if tokenId in sites then Some(sites[tokenId]) else None;
    }

    // ---------- Any transactions ----------

    /** One transaction, or one call made by code that was called. */
    method AnyCall(calls: nat)
      requires Valid()
      modifies this, evmfs
      ensures Valid() && Kept()
      decreases calls, 2
    {
      var anyone: Address :| true;
      var sender := anyone + 1;
      var name: Bytes :| true;
      var hash: Hash :| true;
      var number: nat :| true;
      var other: Address :| true;
      var flag: bool :| true;
      if {
        case true => var _, _ := Register(sender, number, name, number, hash, calls);
        case true => var _ := Update(sender, name, number, hash);
        case true => var _ := SetFeeRecipient(sender, other);
        case true => var _ := evmfs.StoreManifest(sender, name);
        case true => var _ := evmfs.Store(name);
        case true => TokenCall(sender, other, hash, flag, calls);
        case true => var _ := TransferOwnership(sender, other);
        case true => var _ := RenounceOwnership(sender);
      }
    }

    method TokenCall(sender: Address, other: Address, token: Hash, flag: bool, calls: nat)
      requires Valid()
      modifies this, evmfs
      ensures Valid() && Kept()
      decreases calls, 2, 0
    {
      var from: Address :| true;
      if {
        case true => var _ := Approve(sender, other, token);
        case true => var _ := SetApprovalForAll(sender, other, flag);
        case true => var _ := TransferFrom(sender, from, other, token);
        case true => var _ := SafeTransferFrom(sender, from, other, token, flag, calls);
      }
    }

    /** A call into other code (the fee recipient's, or a receiver's): it may call
        anything any number of times, and may fail. */
    method OtherCodeRuns(calls: nat) returns (accepted: bool)
      requires Valid()
      modifies this, evmfs
      ensures Valid() && Kept()
      decreases calls, 0
    {
      if calls > 0 {
        var n: nat :| true;
        for i := 0 to n
          invariant Valid() && Kept()
        {
          AnyCall(calls - 1);
        }
      }
      if * { return true; }
      return false;
    }

    /** Any sequence of transactions. */
    method Transactions(n: nat, calls: nat)
      requires Valid()
      modifies this, evmfs
      ensures Valid() && Kept()
    {
      for i := 0 to n
        invariant Valid() && Kept()
      {
        AnyCall(calls);
      }
    }
  }
}
