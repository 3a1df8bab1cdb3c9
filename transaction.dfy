/** A value transfer between two participants, signed once by its sender. */
module Transactions {
  import opened JavaLang

  /** The canonical text `"%s sent %d VC to %s"`, the string a client signs. */
  function TransactionText(sender: string, amount: Int32, receiver: string): string
  {
    sender + " sent " + Decimal(amount) + " VC to " + receiver
  }

  /** Between a fixed sender and receiver the text names one amount only, so
      a signature over the text also fixes the amount. */
  lemma TextDeterminesAmount(sender: string, a1: Int32, a2: Int32, receiver: string)
    requires TransactionText(sender, a1, receiver) == TransactionText(sender, a2, receiver)
    ensures a1 == a2
  {
    var p, q := sender + " sent ", " VC to " + receiver;
    var x, y := Decimal(a1), Decimal(a2);
    assert TransactionText(sender, a1, receiver) == p + x + q;
    assert TransactionText(sender, a2, receiver) == p + y + q;
    CancelAround(p, x, y, q);
    DecimalInjective(a1, a2);
  }

  /** `SignedTransaction`: four final fields and one signature slot that is
      empty (`null`) until `setSigned` fills it. The Java getters are reads of
      the fields. The public key is its encoded bytes. */
  class SignedTransaction {
    const sender: string
    const amount: Int32
    const receiver: string
    const publicKey: seq<Byte>
    var signed: Option<seq<Byte>>

    constructor (sender: string, amount: Int32, receiver: string, publicKey: seq<Byte>)
      ensures this.sender == sender && this.amount == amount
      ensures this.receiver == receiver && this.publicKey == publicKey
      ensures signed == None
    {
      this.sender := sender;
      this.amount := amount;
      this.receiver := receiver;
      this.publicKey := publicKey;
      signed := None;
    }

    /** Attaches the signature; the other four fields are constants, so
        nothing else changes (ToString reads no mutable field, so the text
        that was signed stays the same). */
    method SetSigned(signature: seq<Byte>)
      modifies this`signed
      ensures signed == Some(signature)
    {
      signed := Some(signature);
    }

    /** `toString`: built from the sender, amount and receiver only, never
        from the key or the signature. */
    function ToString(): string
    {
      TransactionText(sender, amount, receiver)
    }
  }

  /** Two transactions that agree on sender, amount and receiver have the
      same text, whatever their keys and signatures. */
  lemma ToStringIgnoresKeyAndSignature(t1: SignedTransaction, t2: SignedTransaction)
    requires t1.sender == t2.sender && t1.amount == t2.amount && t1.receiver == t2.receiver
    ensures t1.ToString() == t2.ToString()
  {
  }
}
