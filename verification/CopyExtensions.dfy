/** Copying the extensions of a request into the certificate. */
module CopyExtensions {

  datatype Ext = Ext(obj: int, value: string)

  datatype CopyType = CopyNone | CopyAdd | CopyAll

  /** The extensions of one type, in order. */
  function OfType(es: seq<Ext>, obj: int): seq<Ext> {
    if es == [] then []
    else OfType(es[..|es| - 1], obj) + if es[|es| - 1].obj == obj then [es[|es| - 1]] else []
  }

  function Without(es: seq<Ext>, obj: int): seq<Ext> {
    if es == [] then []
    else Without(es[..|es| - 1], obj) + if es[|es| - 1].obj != obj then [es[|es| - 1]] else []
  }

  /** What the certificate should have of a type: its own unless all are copied and the request has some; else
      the request's, the first when adding, the last when copying all. */
  function Choose(mine: seq<Ext>, theirs: seq<Ext>, t: CopyType): seq<Ext> {
    if t.CopyNone? || theirs == [] then mine
    else if t.CopyAdd? then (if mine != [] then mine else [theirs[0]])
    else [theirs[|theirs| - 1]]
  }

  function Expected(x: seq<Ext>, req: seq<Ext>, t: CopyType, obj: int): seq<Ext> {
    Choose(OfType(x, obj), OfType(req, obj), t)
  }

  lemma ChooseNext(mine: seq<Ext>, theirs: seq<Ext>, t: CopyType, e: Ext)
    requires !t.CopyNone?
    ensures Choose(mine, theirs + [e], t)
            == if Choose(mine, theirs, t) != [] && t.CopyAdd? then Choose(mine, theirs, t) else [e]
  {
  }

  lemma OfTypeNext(es: seq<Ext>, e: Ext, obj: int)
    ensures OfType(es + [e], obj) == OfType(es, obj) + if e.obj == obj then [e] else []
  {
    assert (es + [e])[..|es|] == es;
  }

  lemma {:induction false} OfTypeIn(es: seq<Ext>, obj: int)
    ensures OfType(es, obj) != [] <==> exists i :: 0 <= i < |es| && es[i].obj == obj
  {
    if es != [] {
      OfTypeIn(es[..|es| - 1], obj);
      if exists i :: 0 <= i < |es| && es[i].obj == obj {
        var i :| 0 <= i < |es| && es[i].obj == obj;
        assert i < |es| - 1 ==> es[..|es| - 1][i] == es[i];
      }
      if OfType(es[..|es| - 1], obj) != [] {
        var i :| 0 <= i < |es| - 1 && es[..|es| - 1][i].obj == obj;
        assert es[i].obj == obj;
      }
    }
  }

  lemma {:induction false} WithoutType(es: seq<Ext>, obj: int, other: int)
    ensures OfType(Without(es, obj), other) == if other == obj then [] else OfType(es, other)
  {
    if es != [] {
      var init, e := es[..|es| - 1], es[|es| - 1];
      WithoutType(init, obj, other);
      if e.obj != obj { OfTypeNext(Without(init, obj), e, other); }
      assert Without(es, obj) == Without(init, obj) + (if e.obj != obj then [e] else []);
      assert Without(init, obj) + [] == Without(init, obj) && OfType(init, other) + [] == OfType(init, other);
    }
  }

  lemma {:induction false} WithoutRemoved(es: seq<Ext>, obj: int, k: nat)
    requires k < |es| && es[k].obj == obj
    ensures Without(es[..k] + es[k + 1..], obj) == Without(es, obj)
    decreases |es|
  {
    if k < |es| - 1 {
      var init, e := es[..|es| - 1], es[|es| - 1];
      WithoutRemoved(init, obj, k);
      var cut := es[..k] + es[k + 1..];
      assert cut[..|cut| - 1] == init[..k] + init[k + 1..] && cut[|cut| - 1] == e;
    } else {
      assert es[..k] + es[k + 1..] == es[..|es| - 1];
      assert Without(es[..k], obj) + [] == Without(es[..k], obj);
    }
  }

  lemma {:induction false} WithoutNone(es: seq<Ext>, obj: int)
    requires forall i :: 0 <= i < |es| ==> es[i].obj != obj
    ensures Without(es, obj) == es
  {
    if es != [] {
      WithoutNone(es[..|es| - 1], obj);
      assert es == es[..|es| - 1] + [es[|es| - 1]];
    }
  }

  /** X509_get_ext_by_OBJ from the start. */
  method GetExtByObj(es: seq<Ext>, obj: int) returns (idx: int)
    ensures idx == -1 <==> forall i :: 0 <= i < |es| ==> es[i].obj != obj
    ensures idx != -1 ==> 0 <= idx < |es| && es[idx].obj == obj
  {
    for i := 0 to |es|
      invariant forall k :: 0 <= k < i ==> es[k].obj != obj
    {
      if es[i].obj == obj {
        return i;
      }
    }
    return -1;
  }

  /** One extension of the request: kept out, put in the place of all of its type, or added. */
  function WithCopied(es: seq<Ext>, e: Ext, t: CopyType): seq<Ext> {
    if OfType(es, e.obj) == [] then es + [e]
    else if t.CopyAdd? then es
    else Without(es, e.obj) + [e]
  }

  lemma CopiedType(es: seq<Ext>, e: Ext, t: CopyType, obj: int)
    ensures OfType(WithCopied(es, e, t), obj)
            == if obj != e.obj || (OfType(es, obj) != [] && t.CopyAdd?) then OfType(es, obj) else [e]
  {
    var mine := OfType(es, obj);
    OfTypeNext(es, e, obj);
    OfTypeNext(Without(es, e.obj), e, obj);
    WithoutType(es, e.obj, obj);
    assert mine + [] == mine && [] + [e] == [e];
  }

  lemma CopyOneExpected(x: seq<Ext>, req: seq<Ext>, e: Ext, es: seq<Ext>, t: CopyType, obj: int)
    requires !t.CopyNone? && OfType(es, obj) == Expected(x, req, t, obj)
    ensures OfType(WithCopied(es, e, t), obj) == Expected(x, req + [e], t, obj)
  {
    CopiedType(es, e, t, obj);
    OfTypeNext(req, e, obj);
    if obj == e.obj {
      ChooseNext(OfType(x, obj), OfType(req, obj), t, e);
    } else {
      assert OfType(req, obj) + [] == OfType(req, obj);
    }
  }

  class Certificate {
    var exts: seq<Ext>

    /** Deletes every extension of a type, one of them being at idx. */
    method DeleteAll(obj: int, idx0: int)
      requires 0 <= idx0 < |exts| && exts[idx0].obj == obj
      modifies this
      ensures exts == Without(old(exts), obj)
    {
      var idx := idx0;
      while idx != -1
        invariant idx == -1 ==> forall i :: 0 <= i < |exts| ==> exts[i].obj != obj
        invariant idx != -1 ==> 0 <= idx < |exts| && exts[idx].obj == obj
        invariant Without(exts, obj) == Without(old(exts), obj)
        decreases |exts|, idx != -1
      {
        WithoutRemoved(exts, obj, idx);
        exts := exts[..idx] + exts[idx + 1..];
        idx := GetExtByObj(exts, obj);
      }
      WithoutNone(exts, obj);
    }

    method CopyOne(ext: Ext, copyType: CopyType)
      requires !copyType.CopyNone?
      modifies this
      ensures exts == WithCopied(old(exts), ext, copyType)
    {
      OfTypeIn(exts, ext.obj);
      var idx := GetExtByObj(exts, ext.obj);
      if idx != -1 {
        if copyType.CopyAdd? {
          return;
        }
        DeleteAll(ext.obj, idx);
      }
      exts := exts + [ext];
    }

    method CopyAll(req: seq<Ext>, copyType: CopyType)
      modifies this
      ensures forall obj :: OfType(exts, obj) == Expected(old(exts), req, copyType, obj)
    {
      if copyType.CopyNone? {
        return;
      }
      for i := 0 to |req|
        invariant forall obj :: OfType(exts, obj) == Expected(old(exts), req[..i], copyType, obj)
      {
        ghost var before := exts;
        CopyOne(req[i], copyType);
        assert req[..i + 1] == req[..i] + [req[i]];
        forall obj ensures OfType(exts, obj) == Expected(old(exts), req[..i + 1], copyType, obj) {
          CopyOneExpected(old(exts), req[..i], req[i], before, copyType, obj);
        }
      }
      assert req[..|req|] == req;
    }
  }
}
