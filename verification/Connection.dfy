/** The two directions of a network connection, with the errors that end them. */
module Connection {
  import opened Bits
  import opened Options

  // The bytes that will still arrive before the connection ends.
  class Stream {
    var data: Bytes

    constructor (data: Bytes)
      ensures this.data == data
    {
      this.data := data;
    }

    // io.ReadFull
    method ReadFull(n: nat) returns (r: Option<Bytes>)
      modifies this
      ensures n <= |old(data)| ==> r == Some(old(data)[..n]) && data == old(data)[n..]
      ensures n > |old(data)| ==> r == None && data == []
    {
      if n <= |data| {
        r := Some(data[..n]);
        data := data[n..];
      } else {
        r := None;
        data := [];
      }
    }
  }

  // From the state (w, broken) to (w', broken') b was sent: all of it, or a part of it and the connection broke.
  ghost predicate Carried(w: Bytes, broken: bool, w': Bytes, broken': bool, b: Bytes) {
    && w <= w' <= w + b
    && (broken ==> broken' && w' == w)
    && (!broken' ==> w' == w + b)
  }

  lemma CarriedNothing(w: Bytes, broken: bool)
    ensures Carried(w, broken, w, broken, [])
  {
    assert w + [] == w;
  }

  lemma CarriedThen(w: Bytes, broken: bool, w1: Bytes, broken1: bool, w2: Bytes, broken2: bool, a: Bytes, b: Bytes)
    requires Carried(w, broken, w1, broken1, a) && Carried(w1, broken1, w2, broken2, b)
    ensures Carried(w, broken, w2, broken2, a + b)
  {
    assert w + (a + b) == (w + a) + b;
  }

  // A sender that stops once the connection broke would have sent no more.
  lemma CarriedLess(w: Bytes, broken: bool, w': Bytes, broken': bool, a: Bytes, b: Bytes)
    requires Carried(w, broken, w', broken', a) && broken'
    ensures Carried(w, broken, w', broken', a + b)
  {
    assert w + (a + b) == (w + a) + b;
  }

  // What was sent on a connection. Any write may fail after some of its bytes, and then all later ones do.
  class Sink {
    var written: Bytes
    var broken: bool

    constructor ()
      ensures written == [] && !broken
    {
      written, broken := [], false;
    }

    method Write(b: Bytes) returns (ok: bool)
      modifies this
      ensures Carried(old(written), old(broken), written, broken, b) && ok == !broken
    {
      ok := *;
      if broken {
        return false;
      }
      if ok {
        written := written + b;
      } else {
        var n: nat :| n <= |b|;
        written, broken := written + b[..n], true;
      }
    }
  }
}
