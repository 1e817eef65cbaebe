/**
  The exception hierarchy of NexusCore: a base exception that carries a message,
  and five derived exceptions that prefix the message with the name of the
  subsystem that raised it.
 */
module Exceptions {

  import opened Wrappers

  /** Which class of the hierarchy an exception object was constructed as. */
  datatype ExceptionClass = Nexus | Network | Protocol | Config | File | Crypto

  /** The five derived classes, each of which prefixes its message. */
  predicate IsDerived(c: ExceptionClass)
  {
    c != Nexus
  }

  /** The text a derived constructor puts in front of its argument. */
  function Prefix(c: ExceptionClass): string
  {
    match c
    case Nexus => ""
    case Network => "Network Error: "
    case Protocol => "Protocol Error: "
    case Config => "Config Error: "
    case File => "File Error: "
    case Crypto => "Crypto Error: "
  }

  /** An exception object: its dynamic class and its stored message. */
  datatype NexusException = NexusException(cls: ExceptionClass, message: string)
  {
    /**
      The object invariant every constructor establishes: the stored message starts
      with the prefix of the class the object was built as.
     */
    predicate Constructed()
    {
      Prefix(cls) <= message
    }

    /** The stored message, by reference. */
    function GetMessage(): (r: string)
      ensures r == message
    {
      message
    }

    /** The message as a C string: the text up to its first NUL character. */
    function What(): (r: string)
      ensures r <= GetMessage()
      ensures r == GetMessage() <==> '\0' !in GetMessage()
    {
      NulTerminated(message)
    }
  }

  /** The characters a reader of a NUL-terminated buffer sees: everything before the first NUL. */
  function NulTerminated(s: string): (r: string)
    ensures r <= s
    ensures '\0' !in r
    ensures |r| < |s| ==> s[|r|] == '\0'
  {
    if s == [] || s[0] == '\0' then [] else [s[0]] + NulTerminated(s[1..])
  }

  /** The base constructor stores its argument verbatim. */
  function NewNexusException(message: string): (e: NexusException)
    ensures e.cls == Nexus && e.GetMessage() == message
    ensures e.Constructed()
  {
    NexusException(Nexus, message)
  }

  /** The derived constructors: the base message is the class prefix followed by the argument. */
  function NewDerivedException(c: ExceptionClass, message: string): (e: NexusException)
    requires IsDerived(c)
    ensures e.cls == c && e.Constructed()
    ensures |e.GetMessage()| == |Prefix(c)| + |message|
    ensures Prefix(c) <= e.GetMessage() && e.GetMessage()[|Prefix(c)|..] == message
  {
    NexusException(c, Prefix(c) + message)
  }

  function NewNetworkException(message: string): (e: NexusException)
    ensures e.cls == Network && e.GetMessage() == "Network Error: " + message
  {
    NewDerivedException(Network, message)
  }

  function NewProtocolException(message: string): (e: NexusException)
    ensures e.cls == Protocol && e.GetMessage() == "Protocol Error: " + message
  {
    NewDerivedException(Protocol, message)
  }

  function NewConfigException(message: string): (e: NexusException)
    ensures e.cls == Config && e.GetMessage() == "Config Error: " + message
  {
    NewDerivedException(Config, message)
  }

  function NewFileException(message: string): (e: NexusException)
    ensures e.cls == File && e.GetMessage() == "File Error: " + message
  {
    NewDerivedException(File, message)
  }

  function NewCryptoException(message: string): (e: NexusException)
    ensures e.cls == Crypto && e.GetMessage() == "Crypto Error: " + message
  {
    NewDerivedException(Crypto, message)
  }

  /** Removes a prefix from a message; None when the message does not start with it. */
  function StripPrefix(prefix: string, s: string): (r: Option<string>)
    ensures r.Some? <==> prefix <= s
    ensures r.Some? ==> prefix + r.value == s
  {
    if prefix <= s then Some(s[|prefix|..]) else None
  }

  /** Stripping a derived class's prefix from its message recovers the constructor's argument. */
  lemma StripPrefixRecoversArgument(c: ExceptionClass, message: string)
    requires IsDerived(c)
    ensures StripPrefix(Prefix(c), NewDerivedException(c, message).GetMessage()) == Some(message)
  {
  }

  /** Every object satisfying the invariant is what its class's constructor builds from the message minus the prefix. */
  lemma ConstructedIsBuilt(e: NexusException)
    requires e.Constructed()
    ensures StripPrefix(Prefix(e.cls), e.GetMessage()).Some?
    ensures var m := StripPrefix(Prefix(e.cls), e.GetMessage()).value;
      e == if IsDerived(e.cls) then NewDerivedException(e.cls, m) else NewNexusException(m)
  {
  }

  /** No derived prefix starts another one, so a derived message names the class that built it. */
  lemma {:induction false} PrefixIdentifiesClass(c: ExceptionClass, d: ExceptionClass, message: string)
    requires IsDerived(c) && IsDerived(d) && c != d
    ensures StripPrefix(Prefix(d), NewDerivedException(c, message).GetMessage()) == None
  {
    var m := NewDerivedException(c, message).GetMessage();
    var p := Prefix(d);
    var k := FirstDifference(c, d);
    assert k < |p| && k < |Prefix(c)| && m[k] == Prefix(c)[k] != p[k];
  }

  /** An index at which the prefixes of two distinct derived classes differ. */
  function FirstDifference(c: ExceptionClass, d: ExceptionClass): (k: nat)
    requires IsDerived(c) && IsDerived(d) && c != d
    ensures k < |Prefix(c)| && k < |Prefix(d)| && Prefix(c)[k] != Prefix(d)[k]
  {
    if {c, d} == {Config, Crypto} then 1 else 0
  }

  /** The base class's message is its argument unchanged. */
  lemma BaseGetMessage(message: string)
    ensures NewNexusException(message).GetMessage() == message
    ensures NewNexusException(message).What() <= message
  {
  }

  /** No prefix contains a NUL character. */
  lemma PrefixHasNoNul(c: ExceptionClass)
    ensures '\0' !in Prefix(c)
  {
  }

  /** what() reads back the whole message exactly when neither the prefix nor the argument holds a NUL. */
  lemma {:induction false} WhatMatchesGetMessage(c: ExceptionClass, message: string)
    requires IsDerived(c)
    ensures var e := NewDerivedException(c, message);
      e.What() == e.GetMessage() <==> '\0' !in message
  {
    PrefixHasNoNul(c);
    var s := Prefix(c) + message;
    assert '\0' in s <==> '\0' in message by {
      if '\0' in message {
        var i :| 0 <= i < |message| && message[i] == '\0';
        assert s[|Prefix(c)| + i] == '\0';
      }
    }
  }
}
