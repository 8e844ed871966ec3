/** The Hashids encoder both shorteners use to turn a numeric id into a code.
    The library itself is not part of this model: an encoder is any function
    from ids to strings, and the shorteners require it to be injective (a
    Hashids instance with a fixed salt decodes every code it produces back to
    its id, so distinct ids never share a code). */
module Hashids {

  type Encoder = nat -> string

  ghost predicate Injective(encode: Encoder) {
    forall a: nat, b: nat :: encode(a) == encode(b) ==> a == b
  }

  /** The codes of the ids lo+1 .. hi. */
  ghost function Issued(encode: Encoder, lo: nat, hi: nat): set<string> {
    set id: nat | lo < id <= hi :: encode(id)
  }

  lemma IssuedNext(encode: Encoder, lo: nat, hi: nat)
    requires lo <= hi
    ensures Issued(encode, lo, hi + 1) == Issued(encode, lo, hi) + {encode(hi + 1)}
  {
    var a, b := Issued(encode, lo, hi + 1), Issued(encode, lo, hi) + {encode(hi + 1)};
    forall c | c in a ensures c in b {
      var id: nat :| lo < id <= hi + 1 && encode(id) == c;
      if id <= hi {
        assert c in Issued(encode, lo, hi);
      }
    }
  }

  /** Under an injective encoder the code of a later id is not among the
      codes of the ids lo+1 .. hi. */
  lemma LaterNotIssued(encode: Encoder, lo: nat, hi: nat, id: nat)
    requires Injective(encode)
    requires hi < id
    ensures encode(id) !in Issued(encode, lo, hi)
  {
  }

  /** An injective encoder gives hi - lo distinct codes to the ids lo+1 .. hi. */
  lemma {:induction false} IssuedCount(encode: Encoder, lo: nat, hi: nat)
    requires Injective(encode)
    requires lo <= hi
    ensures |Issued(encode, lo, hi)| == hi - lo
  {
    if hi == lo {
      assert Issued(encode, lo, hi) == {};
    } else {
      IssuedCount(encode, lo, hi - 1);
      IssuedNext(encode, lo, hi - 1);
      LaterNotIssued(encode, lo, hi - 1, hi);
    }
  }

  /** One more taken code: when the code of id hi+1 is among `codes` too, the
      codes not yet skipped shrink, which bounds the collision loop. */
  lemma SkipTaken(encode: Encoder, codes: set<string>, lo: nat, hi: nat)
    requires Injective(encode)
    requires lo <= hi
    requires Issued(encode, lo, hi) <= codes && encode(hi + 1) in codes
    ensures Issued(encode, lo, hi + 1) <= codes
    ensures codes - Issued(encode, lo, hi + 1) < codes - Issued(encode, lo, hi)
  {
    IssuedNext(encode, lo, hi);
    LaterNotIssued(encode, lo, hi, hi + 1);
    assert encode(hi + 1) in codes - Issued(encode, lo, hi);
  }

  /** If every code of the ids lo+1 .. hi is already among `codes`, there are
      at most |codes| such ids: a collision loop fed fresh ids from an
      injective encoder skips at most as many ids as there are stored codes. */
  lemma SkippedAtMostStored(encode: Encoder, codes: set<string>, lo: nat, hi: nat)
    requires Injective(encode)
    requires lo <= hi
    requires Issued(encode, lo, hi) <= codes
    ensures hi - lo <= |codes|
  {
    IssuedCount(encode, lo, hi);
    SubsetCard(Issued(encode, lo, hi), codes);
  }

  lemma {:induction false} SubsetCard<T>(a: set<T>, b: set<T>)
    requires a <= b
    ensures |a| <= |b|
  {
    if a != {} {
      var x :| x in a;
      SubsetCard(a - {x}, b - {x});
    }
  }
}
