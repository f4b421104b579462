/** The buffers that the entries of a DPB occupy, and what eviction and trimming do to them. */
module DpbBuffers {
  import opened DpbMachine

  function Buffers(dpb: seq<RefPic>): set<nat> {
    set r | r in dpb :: r.buffer
  }

  ghost predicate DistinctBuffers(dpb: seq<RefPic>) {
    forall i, j :: 0 <= i < j < |dpb| ==> dpb[i].buffer != dpb[j].buffer
  }

  ghost predicate Subset(a: seq<RefPic>, b: seq<RefPic>) {
    forall r :: r in a ==> r in b
  }

  lemma AppendBuffers(dpb: seq<RefPic>, r: RefPic)
    ensures Buffers(dpb + [r]) == Buffers(dpb) + {r.buffer}
  {
    assert r in dpb + [r];
    forall x | x in dpb
      ensures x in dpb + [r]
    {
    }
  }

  lemma {:induction false} BuffersBound(dpb: seq<RefPic>)
    ensures |Buffers(dpb)| <= |dpb|
  {
    if dpb != [] {
      var init, last := dpb[..|dpb| - 1], dpb[|dpb| - 1];
      BuffersBound(init);
      assert dpb == init + [last];
      AppendBuffers(init, last);
    }
  }

  lemma SubsetBuffers(a: seq<RefPic>, b: seq<RefPic>)
    requires Subset(a, b)
    ensures Buffers(a) <= Buffers(b)
  {
  }

  lemma BuffersSnoc(s: seq<RefPic>, j: nat)
    requires j < |s|
    ensures Buffers(s[..j + 1]) == Buffers(s[..j]) + {s[j].buffer}
  {
    assert s[..j + 1] == s[..j] + [s[j]];
    AppendBuffers(s[..j], s[j]);
  }

  lemma EmptyBuffers(s: seq<RefPic>)
    requires s == []
    ensures Buffers(s) - Buffers([]) == {}
  {
  }

  lemma TrimStep(all: set<nat>, left: set<nat>, b: nat, cap: nat)
    requires b in left && left <= all
    ensures b == cap ==> all - (left - {b}) - {cap} == all - left - {cap}
    ensures b != cap ==> all - (left - {b}) - {cap} == (all - left - {cap}) + {b}
  {
  }

  /** One eviction: an entry stays, or leaves with a buffer no other entry shares. */
  lemma EvictStep(dpb: seq<RefPic>, left: seq<RefPic>, kept: seq<int>, j: nat)
    requires j < |dpb| && DistinctBuffers(dpb) && left == Evict(dpb[..j], kept)
    ensures Buffers(dpb[..j + 1]) - Buffers(left + [dpb[j]]) == Buffers(dpb[..j]) - Buffers(left)
    ensures Buffers(dpb[..j + 1]) - Buffers(left) == (Buffers(dpb[..j]) - Buffers(left)) + {dpb[j].buffer}
  {
    BuffersSnoc(dpb, j);
    AppendBuffers(left, dpb[j]);
    forall r | r in left
      ensures r in dpb[..j]
    {
      EvictMember(dpb[..j], kept, r);
    }
  }

  lemma TrimDone(dpb: seq<RefPic>, max: nat)
    ensures |dpb| > max ==> Trim(dpb, max) == Trim(Without(dpb, Lowest(dpb)), max)
  {
  }

  lemma WithoutInRange(dpb: seq<RefPic>, k: nat, n: nat)
    requires k < |dpb| && forall j :: 0 <= j < |dpb| ==> dpb[j].buffer < n
    ensures forall j :: 0 <= j < |Without(dpb, k)| ==> Without(dpb, k)[j].buffer < n
  {
  }

  lemma WithoutBuffers(dpb: seq<RefPic>, k: nat)
    requires k < |dpb| && DistinctBuffers(dpb)
    ensures Buffers(Without(dpb, k)) == Buffers(dpb) - {dpb[k].buffer}
    ensures dpb[k].buffer in Buffers(dpb) && DistinctBuffers(Without(dpb, k))
  {
    assert dpb[k] in dpb;
    forall r | r in dpb && r != dpb[k]
      ensures r in Without(dpb, k)
    {
      var j :| 0 <= j < |dpb| && dpb[j] == r;
      assert Without(dpb, k)[if j < k then j else j - 1] == r;
    }
    forall r | r in Without(dpb, k)
      ensures r in dpb && r.buffer != dpb[k].buffer
    {
    }
  }

  lemma JoinDpb(dpb: seq<RefPic>, r: RefPic, n: nat)
    requires DistinctBuffers(dpb) && r.buffer !in Buffers(dpb) && r.buffer < n
    requires forall j :: 0 <= j < |dpb| ==> dpb[j].buffer < n
    ensures DistinctBuffers(dpb + [r])
    ensures forall j :: 0 <= j < |dpb + [r]| ==> (dpb + [r])[j].buffer < n
  {
    assert forall j :: 0 <= j < |dpb| ==> dpb[j] in dpb;
  }

  lemma TrimBuffers(dpb: seq<RefPic>, newest: RefPic, max: nat)
    ensures Subset(Trim(dpb + [newest], max), dpb + [newest])
    ensures Buffers(Trim(dpb + [newest], max)) <= Buffers(dpb) + {newest.buffer}
  {
    var all := dpb + [newest];
    forall r | r in Trim(all, max)
      ensures r in all
    {
      TrimSubset(all, max, r);
    }
    SubsetBuffers(Trim(all, max), all);
    AppendBuffers(dpb, newest);
  }

  lemma NewestByBuffer(dpb: seq<RefPic>, newest: RefPic, kept: seq<RefPic>)
    requires newest.buffer !in Buffers(dpb) && Subset(kept, dpb + [newest])
    ensures newest.buffer in Buffers(kept) <==> newest in kept
  {
    if newest.buffer in Buffers(kept) {
      var r :| r in kept && r.buffer == newest.buffer;
      assert r !in dpb;
    }
  }
}
