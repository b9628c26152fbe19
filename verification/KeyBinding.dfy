/** The binding of a node id to an agent id and a key pair, as each boot writes it. */
module KeyBinding {
  import opened Json
  import opened Wrappers

  type Key = nat
  type NodeId = nat

  /** The two texts of a key file. */
  datatype KeyTexts = KeyTexts(publicKey: Text, privateKey: Text)

  /** How key texts are read: the key whose half a text is, if it is one. */
  datatype Crypto = Crypto(publicOf: Text -> Option<Key>, privateOf: Text -> Option<Key>)

  /** An id derived from a key stands for the hash of that text. */
  datatype AgentId = HashOf(text: Text) | Named(name: nat) | PlaceholderOf(seed: nat)

  datatype Signature = Signed(key: Key, node: NodeId) | OtherSignature(text: nat)

  datatype Mode = NoMode | Verifiable | Placeholder

  /** The files a boot finds; a key file without two texts that are not empty counts as none. */
  datatype Files = Files(agentId: Option<AgentId>, keypair: Option<KeyTexts>)

  datatype Environment = Environment(
    node: Option<NodeId>, provided: Option<AgentId>, mode: Mode, seed: Option<nat>, override: Option<Signature>)

  /** The two pairs a boot would generate, one per call. */
  datatype Draws = Draws(first: KeyTexts, second: KeyTexts)

  datatype Binding = Binding(
    node: Option<NodeId>, agentId: Option<AgentId>, publicKey: Option<Text>, signature: Option<Signature>)

  /** The halves of a pair, each without surrounding white space, are halves of one key. */
  predicate Together(c: Crypto, k: KeyTexts) {
    c.publicOf(Trim(k.publicKey)).Some? && c.publicOf(Trim(k.publicKey)) == c.privateOf(Trim(k.privateKey))
  }

  /** A signature verifies under a text that is the public half of the key it was made with. */
  predicate Verifies(c: Crypto, published: Text, node: NodeId, s: Signature) {
    s.Signed? && c.publicOf(published) == Some(s.key) && s.node == node
  }

  // ------------------------------------------------------------------ one boot

  /** The agent id a boot settles on. */
  function AgentFor(f: Files, e: Environment, d: Draws): Option<AgentId> {
    if f.agentId.Some? then f.agentId
    else if e.provided.Some? then e.provided
    else
      match e.mode
      case Verifiable => Some(HashOf((if f.keypair.Some? then f.keypair.value else d.first).publicKey))
      case Placeholder => if e.seed.Some? then Some(PlaceholderOf(e.seed.value)) else None
      case NoMode => None
  }

  /** Whether a pair was found is decided once, before the first is generated, so a boot that
      generated one for the agent id generates another for the binding. */
  function KeyFor(f: Files, e: Environment, d: Draws): KeyTexts {
    if f.keypair.Some? then f.keypair.value
    else if f.agentId.None? && e.provided.None? && e.mode == Verifiable then d.second
    else d.first
  }

  function FilesAfter(f: Files, e: Environment, d: Draws): Files {
    var id := AgentFor(f, e, d);
    if id.None? then f else Files(id, Some(KeyFor(f, e, d)))
  }

  function NonBlank(t: Text): Option<Text> { if Trim(t) == [] then None else Some(Trim(t)) }

  /** Signing throws, and leaves no signature, when the private text is no key; only a signature
      that was made is overridden. */
  function SignatureFor(c: Crypto, k: KeyTexts, e: Environment): Option<Signature> {
    if NonBlank(k.publicKey).None? || NonBlank(k.privateKey).None? || e.node.None? then None
    else
      match c.privateOf(Trim(k.privateKey))
      case None => None
      case Some(key) => if e.override.Some? then e.override else Some(Signed(key, e.node.value))
  }

  function BindingAfter(c: Crypto, f: Files, e: Environment, d: Draws): Binding {
    var id := AgentFor(f, e, d);
    if id.None? then Binding(e.node, None, None, None)
    else
      var k := KeyFor(f, e, d);
      Binding(e.node, id, NonBlank(k.publicKey), SignatureFor(c, k, e))
  }

  /** A binding publishes the public text that is then on file without white space around it, and
      nothing if there is nothing else in it. */
  lemma PublishesKey(c: Crypto, f: Files, e: Environment, d: Draws)
    requires AgentFor(f, e, d).Some?
    ensures var k := FilesAfter(f, e, d).keypair;
            && k.Some?
            && BindingAfter(c, f, e, d).publicKey ==
               if exists i :: 0 <= i < |k.value.publicKey| && !IsTrimmed(k.value.publicKey[i])
               then Some(Trim(k.value.publicKey)) else None
  {
    TrimNothing(KeyFor(f, e, d).publicKey);
  }

  class AgentStore {
    const crypto: Crypto
    var agentId: Option<AgentId>
    var keypair: Option<KeyTexts>
    var binding: Option<Binding>
    var drawn: nat

    ghost function Contents(): Files
      reads this
    {
      Files(agentId, keypair)
    }

    constructor (crypto: Crypto)
      ensures this.crypto == crypto && Contents() == Files(None, None) && binding == None
    {
      this.crypto := crypto;
      agentId, keypair, binding, drawn := None, None, None, 0;
    }

    /** Returns the pair that was loaded, or generates one and overwrites the file. */
    method EnsureKeypair(loaded: Option<KeyTexts>, d: Draws) returns (k: KeyTexts)
      modifies this`keypair, this`drawn
      ensures loaded.Some? ==> k == loaded.value && keypair == old(keypair) && drawn == old(drawn)
      ensures loaded.None? ==>
                && k == (if old(drawn) == 0 then d.first else d.second)
                && keypair == Some(k) && drawn == old(drawn) + 1
    {
      if loaded.Some? {
        return loaded.value;
      }
      k := if drawn == 0 then d.first else d.second;
      keypair := Some(k);
      drawn := drawn + 1;
    }

    method Bind(e: Environment, d: Draws)
      modifies this
      ensures Contents() == FilesAfter(old(Contents()), e, d)
      ensures binding == Some(BindingAfter(crypto, old(Contents()), e, d))
    {
      drawn := 0;
      var loaded := keypair;
      if agentId.None? && e.provided.Some? {
        agentId := e.provided;
      }
      if agentId.None? && e.mode == Verifiable {
        var k := EnsureKeypair(loaded, d);
        agentId := Some(HashOf(k.publicKey));
      }
      if agentId.None? && e.mode == Placeholder && e.seed.Some? {
        agentId := Some(PlaceholderOf(e.seed.value));
      }
      var publicKey: Option<Text> := None;
      var signature: Option<Signature> := None;
      if agentId.Some? {
        var k := EnsureKeypair(loaded, d);
        publicKey := NonBlank(k.publicKey);
        var private := NonBlank(k.privateKey);
        if publicKey.Some? && private.Some? && e.node.Some? {
          var key := crypto.privateOf(private.value);
          if key.Some? {
            signature := Some(Signed(key.value, e.node.value));
            if e.override.Some? {
              signature := e.override;
            }
          }
        }
      }
      binding := Some(Binding(e.node, agentId, publicKey, signature));
    }
  }

  // ------------------------------------------------------------------- theorems

  /** Boot after boot, with any environments and draws. */
  function FilesAfterAll(f: Files, boots: seq<(Environment, Draws)>): Files {
    if boots == [] then f
    else
      var b := boots[|boots| - 1];
      FilesAfter(FilesAfterAll(f, boots[..|boots| - 1]), b.0, b.1)
  }

  /** A signature that was not overridden verifies under the published key for the bound node id
      exactly when the halves on file belong together, which no boot looks at; an override takes
      the place of one that could be made, and is judged by itself. */
  lemma SignatureVerifies(c: Crypto, f: Files, e: Environment, d: Draws)
    requires BindingAfter(c, f, e, d).signature.Some?
    ensures var b, after := BindingAfter(c, f, e, d), FilesAfter(f, e, d);
            && b.node.Some? && b.publicKey.Some? && after.keypair.Some?
            && (e.override.Some? ==> b.signature == e.override)
            && (e.override.None? ==>
                (Verifies(c, b.publicKey.value, b.node.value, b.signature.value) <==>
                 Together(c, after.keypair.value)))
  {
  }

  /** What a generator gives: halves of one key, the public text ending in a line break. */
  predicate Generated(c: Crypto, k: KeyTexts) { Together(c, k) && Trim(k.publicKey) != k.publicKey }

  predicate AllGenerated(c: Crypto, boots: seq<(Environment, Draws)>) {
    forall b :: b in boots ==> Generated(c, b.1.first) && Generated(c, b.1.second)
  }

  lemma {:induction false} StaysTogether(c: Crypto, f: Files, boots: seq<(Environment, Draws)>)
    requires AllGenerated(c, boots) && (f.keypair.Some? ==> Together(c, f.keypair.value))
    ensures var after := FilesAfterAll(f, boots); after.keypair.Some? ==> Together(c, after.keypair.value)
  {
    if boots != [] {
      assert boots == boots[..|boots| - 1] + [boots[|boots| - 1]];
      StaysTogether(c, f, boots[..|boots| - 1]);
    }
  }

  /** Over any boots: where no foreign key file was put in place, every signature that was not
      overridden verifies; a key file whose halves do not belong together never gives one that
      does, from the first boot on. */
  lemma SignaturesVerify(c: Crypto, f: Files, boots: seq<(Environment, Draws)>, e: Environment, d: Draws)
    requires AllGenerated(c, boots + [(e, d)])
    requires BindingAfter(c, FilesAfterAll(f, boots), e, d).signature.Some?
    ensures var b := BindingAfter(c, FilesAfterAll(f, boots), e, d);
            && b.node.Some? && b.publicKey.Some?
            && (e.override.Some? ==> b.signature == e.override)
            && (e.override.None? ==>
                (Verifies(c, b.publicKey.value, b.node.value, b.signature.value) <==>
                 f.keypair.None? || Together(c, f.keypair.value)))
  {
    assert forall b :: b in boots ==> b in boots + [(e, d)];
    assert (e, d) in boots + [(e, d)];
    SignatureVerifies(c, FilesAfterAll(f, boots), e, d);
    if f.keypair.Some? {
      KeepsKeypair(f, boots);
    } else {
      StaysTogether(c, f, boots);
    }
  }

  lemma {:induction false} KeepsKeypair(f: Files, boots: seq<(Environment, Draws)>)
    requires f.keypair.Some?
    ensures FilesAfterAll(f, boots).keypair == f.keypair
  {
    if boots != [] { KeepsKeypair(f, boots[..|boots| - 1]); }
  }

  /** Once an agent id and a key pair are on file, no boot changes either. */
  lemma {:induction false} BoundForGood(f: Files, boots: seq<(Environment, Draws)>)
    requires f.agentId.Some? && f.keypair.Some?
    ensures FilesAfterAll(f, boots) == f
  {
    if boots != [] { BoundForGood(f, boots[..|boots| - 1]); }
  }

  /** The agent id of a first verifiable boot is the hash of the public text that this and all
      later boots find on file if and only if the key pair was on file beforehand, when the
      generator does not repeat itself. */
  lemma VerifiableExactly(f: Files, e: Environment, d: Draws, boots: seq<(Environment, Draws)>)
    requires f.agentId.None? && e.provided.None? && e.mode == Verifiable && d.first.publicKey != d.second.publicKey
    ensures var now := FilesAfterAll(FilesAfter(f, e, d), boots);
            && now.agentId.Some? && now.keypair.Some?
            && (now.agentId == Some(HashOf(now.keypair.value.publicKey)) <==> f.keypair.Some?)
  {
    BoundForGood(FilesAfter(f, e, d), boots);
  }

  /** It is the hash of the key as these boots publish it if and only if, besides, the text on
      file has no white space around it; a generated one ends in a line break. */
  lemma PublishedExactly(c: Crypto, f: Files, e: Environment, d: Draws,
                         boots: seq<(Environment, Draws)>, last: (Environment, Draws))
    requires f.agentId.None? && e.provided.None? && e.mode == Verifiable && Generated(c, d.first)
    requires BindingAfter(c, FilesAfterAll(FilesAfter(f, e, d), boots), last.0, last.1).publicKey.Some?
    ensures var b := BindingAfter(c, FilesAfterAll(FilesAfter(f, e, d), boots), last.0, last.1);
            b.agentId == Some(HashOf(b.publicKey.value)) <==>
              f.keypair.Some? && Trim(f.keypair.value.publicKey) == f.keypair.value.publicKey
  {
    BoundForGood(FilesAfter(f, e, d), boots);
    TrimTwice(d.second.publicKey);
  }
}
