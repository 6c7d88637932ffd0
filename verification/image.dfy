/**
 * The sparse memory image `combine` builds: an IntelHex object, seen as a
 * map from byte address to byte. Writing a byte string at an address puts
 * its i-th byte at address + i; a byte written where one already is
 * replaces it.
 */
module Image {
  import opened Bytes

  /** k is one of the n addresses from addr on. */
  predicate InSpan(k: nat, addr: nat, n: nat)
  {
    addr <= k < addr + n
  }

  /**
   * m after writing data one byte at a time, data[0] at addr first: every
   * written address holds its byte of data, and every other address keeps
   * what it held.
   */
  function Overlay(m: map<nat, byte>, addr: nat, data: seq<byte>): (r: map<nat, byte>)
    ensures forall k :: k in r <==> k in m || InSpan(k, addr, |data|)
    ensures forall i :: 0 <= i < |data| ==> addr + i in r && r[addr + i] == data[i]
    ensures forall k :: k in m && !InSpan(k, addr, |data|) ==> r[k] == m[k]
    decreases |data|
  {
    if data == [] then m
    else
      var r := Overlay(m[addr := data[0]], addr + 1, data[1..]);
      forall i | 1 <= i < |data|
        ensures r[addr + i] == data[i]
      {
        assert r[(addr + 1) + (i - 1)] == data[1..][i - 1];
      }
      r
  }

  /**
   * data laid out from addr on, as a map of its own. The bounds show Dafny
   * the map is finite; InSpan is the term its quantifier is triggered on.
   */
  function Placed(addr: nat, data: seq<byte>): (r: map<nat, byte>)
  {
    map k: nat | addr <= k < addr + |data| && InSpan(k, addr, |data|) :: data[k - addr]
  }

  /** Writing data over m is the union of m with data's own map, data winning. */
  lemma OverlayIsUnion(m: map<nat, byte>, addr: nat, data: seq<byte>)
    ensures Overlay(m, addr, data) == m + Placed(addr, data)
  {
    var r, u := Overlay(m, addr, data), m + Placed(addr, data);
    forall k | k in r
      ensures k in u && r[k] == u[k]
    {
      if addr <= k < addr + |data| {
        assert r[addr + (k - addr)] == data[k - addr];
      }
    }
  }

  /** Writing data and then one more byte is writing data with that byte appended. */
  lemma OverlaySnoc(m: map<nat, byte>, addr: nat, data: seq<byte>, x: byte)
    ensures Overlay(m, addr, data + [x]) == Overlay(m, addr, data)[addr + |data| := x]
  {
    var o := Overlay(m, addr, data);
    var r, s := Overlay(m, addr, data + [x]), o[addr + |data| := x];
    assert r.Keys == s.Keys;
    forall k | k in r
      ensures r[k] == s[k]
    {
      if addr <= k < addr + |data| {
        assert r[addr + (k - addr)] == (data + [x])[k - addr];
        assert o[addr + (k - addr)] == data[k - addr];
      } else if k == addr + |data| {
        assert r[addr + |data|] == (data + [x])[|data|];
      }
    }
  }

  /**
   * Writes to disjoint address ranges commute: the image does not depend on
   * the order the regions are written in.
   */
  lemma DisjointOverlaysCommute(m: map<nat, byte>, a: nat, x: seq<byte>, b: nat, y: seq<byte>)
    requires forall k :: !(InSpan(k, a, |x|) && InSpan(k, b, |y|))
    ensures Overlay(Overlay(m, a, x), b, y) == Overlay(Overlay(m, b, y), a, x)
  {
    var l, r := Overlay(Overlay(m, a, x), b, y), Overlay(Overlay(m, b, y), a, x);
    assert l.Keys == r.Keys;
    forall k | k in l
      ensures l[k] == r[k]
    {
      DisjointOverlaysAt(m, a, x, b, y, k);
    }
    SameCells(l, r);
  }

  /** Two images holding the same bytes at the same addresses are the same image. */
  lemma SameCells(l: map<nat, byte>, r: map<nat, byte>)
    requires l.Keys == r.Keys
    requires forall k :: k in l ==> l[k] == r[k]
    ensures l == r
  {
  }

  lemma DisjointOverlaysAt(m: map<nat, byte>, a: nat, x: seq<byte>, b: nat, y: seq<byte>, k: nat)
    requires forall k :: !(InSpan(k, a, |x|) && InSpan(k, b, |y|))
    requires k in Overlay(Overlay(m, a, x), b, y)
    ensures k in Overlay(Overlay(m, b, y), a, x)
    ensures Overlay(Overlay(m, a, x), b, y)[k] == Overlay(Overlay(m, b, y), a, x)[k]
  {
    var ma, mb := Overlay(m, a, x), Overlay(m, b, y);
    var l, r := Overlay(ma, b, y), Overlay(mb, a, x);
    if a <= k < a + |x| {
      assert ma[a + (k - a)] == x[k - a] && r[a + (k - a)] == x[k - a];
    } else if b <= k < b + |y| {
      assert mb[b + (k - b)] == y[k - b] && l[b + (k - b)] == y[k - b];
    }
  }

  /** An IntelHex object: the bytes it holds, by address. */
  class MemoryImage {
    var cells: map<nat, byte>

    /** `IntelHex()`: an image holding nothing. */
    constructor ()
      ensures cells == map[]
    {
      cells := map[];
    }

    /**
     * `puts(address, s)`, and `loadbin(fn, offset)` once the file is read:
     * the bytes of data are stored one by one from addr on.
     */
    method Puts(addr: nat, data: seq<byte>)
      modifies this
      ensures cells == Overlay(old(cells), addr, data)
    {
      var i := 0;
      while i < |data|
        invariant 0 <= i <= |data|
        invariant cells == Overlay(old(cells), addr, data[..i])
      {
        OverlaySnoc(old(cells), addr, data[..i], data[i]);
        assert data[..i + 1] == data[..i] + [data[i]];
        cells := cells[addr + i := data[i]];
        i := i + 1;
      }
      assert data[..i] == data;
    }

    /**
     * `fromfile(fn, format='hex')` once the file is decoded: the decoded
     * bytes are stored at the addresses the records give, replacing what
     * was there.
     */
    method MergeHex(decoded: map<nat, byte>)
      modifies this
      ensures cells == old(cells) + decoded
    {
      cells := cells + decoded;
    }
  }
}
