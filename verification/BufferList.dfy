/**
  * The list of chunks behind a readable stream (bundle module 533) and the function that takes
  * bytes or characters off its front (`T` in bundle module 215).
  */
module BufferList {
  import opened Chunks
  import opened Options

  class Node<T> {
    var data: seq<T>
    var next: Node?<T>

    constructor (data: seq<T>, next: Node?<T>)
      ensures this.data == data && this.next == next
    {
      this.data, this.next := data, next;
    }
  }

  class List<T(0)> {
    var head: Node?<T>
    var tail: Node?<T>
    var length: nat
    /** The nodes in order and their chunks. */
    ghost var nodes: seq<Node<T>>
    ghost var chunks: seq<seq<T>>

    ghost function NodeAt(i: nat): Node?<T>
      reads this
    {
      if i < |nodes| then nodes[i] else null
    }

    ghost predicate LinkedAt(i: nat)
      reads this, nodes
      requires i < |nodes| == |chunks|
    {
      nodes[i].data == chunks[i] && nodes[i].next == NodeAt(i + 1)
    }

    ghost predicate Valid()
      reads this, nodes
    {
      && length == |nodes| == |chunks|
      && head == NodeAt(0)
      && tail == (if nodes == [] then null else nodes[|nodes| - 1])
      && (forall i, j | 0 <= i < j < |nodes| :: nodes[i] != nodes[j])
      && (forall i | 0 <= i < |nodes| :: LinkedAt(i))
    }

    constructor ()
      ensures Valid() && chunks == [] && nodes == []
    {
      head, tail, length, nodes, chunks := null, null, 0, [], [];
    }

    method Push(data: seq<T>)
      requires Valid()
      modifies this, nodes
      ensures Valid() && chunks == old(chunks) + [data]
      ensures nodes == old(nodes) + [tail] && fresh(tail)
    {
      var e := new Node(data, null);
      if length > 0 {
        tail.next := e;
      } else {
        head := e;
      }
      tail, length := e, length + 1;
      nodes, chunks := nodes + [e], chunks + [data];
      forall i | 0 <= i < |nodes| ensures LinkedAt(i) {
        if i < |old(nodes)| { assert old(LinkedAt(i)); }
      }
    }

    method Unshift(data: seq<T>)
      requires Valid()
      modifies this
      ensures Valid() && chunks == [data] + old(chunks)
      ensures nodes == [head] + old(nodes) && fresh(head)
    {
      var e := new Node(data, head);
      if length == 0 {
        tail := e;
      }
      head, length := e, length + 1;
      nodes, chunks := [e] + nodes, [data] + chunks;
      forall i | 0 <= i < |nodes| ensures LinkedAt(i) {
        if i > 0 { assert old(LinkedAt(i - 1)); }
      }
    }

    method Shift() returns (data: seq<T>)
      requires Valid() && chunks != []
      modifies this
      ensures Valid() && data == old(chunks)[0] && chunks == old(chunks)[1..] && nodes == old(nodes)[1..]
    {
      assert LinkedAt(0);
      data := head.data;
      if length == 1 {
        head, tail := null, null;
      } else {
        head := head.next;
      }
      length := length - 1;
      nodes, chunks := nodes[1..], chunks[1..];
      forall i | 0 <= i < |nodes| ensures LinkedAt(i) { assert old(LinkedAt(i + 1)); }
    }

    method Clear()
      modifies this
      ensures Valid() && chunks == [] && nodes == []
    {
      head, tail, length, nodes, chunks := null, null, 0, [], [];
    }

    /** Join all chunks, walking the nodes. */
    method Join() returns (all: seq<T>)
      requires Valid()
      ensures all == Flat(chunks)
    {
      all := [];
      var n := head;
      ghost var i := 0;
      while n != null
        invariant i <= |nodes| && n == NodeAt(i) && all + Flat(chunks[i..]) == Flat(chunks)
        decreases |nodes| - i
      {
        assert LinkedAt(i) && chunks[i..][1..] == chunks[i + 1..];
        all, n := all + n.data, n.next;
        i := i + 1;
      }
    }

    /** Drop the first `k` nodes, and the first `u` items of the next one. */
    method DropFront(n: Node?<T>, k: nat, u: nat)
      requires Valid() && k <= |nodes| && n == NodeAt(k) && (n == null ==> u == 0)
      requires n != null ==> u <= |chunks[k]|
      modifies this, nodes
      ensures Valid() && nodes == old(nodes)[k..]
      ensures chunks == if n == null then [] else [old(chunks)[k][u..]] + old(chunks)[k + 1..]
    {
      ghost var was := chunks;
      assert n != null ==> LinkedAt(k);
      length := length - k;
      nodes := nodes[k..];
      if n == null {
        head, tail, chunks := null, null, [];
      } else {
        head := n;
        n.data := n.data[u..];
        chunks := [was[k][u..]] + was[k + 1..];
        forall i | 0 <= i < |nodes| ensures LinkedAt(i) { assert old(LinkedAt(k + i)); }
      }
    }

    /** Collect the first `n` items across several nodes, as text: the pieces are concatenated.
        The list is to be cut before item `u` of node `p`, the one after `count` nodes. */
    method GatherText(n: nat) returns (text: seq<T>, p: Node?<T>, count: nat, u: nat)
      requires Valid() && chunks != [] && |chunks[0]| < n < |Flat(chunks)|
      ensures CutAt(n, p, count, u) && text == Flat(chunks)[..n]
    {
      hide Flat;
      assert LinkedAt(0);
      text := head.data;
      p, count := head.next, 1;
      var t := n - |text|;
      FirstChunk(chunks);
      while true
        invariant 1 <= count <= |nodes| && p == NodeAt(count) && text == Flat(chunks[..count]) && t == n - |text| > 0
        decreases |nodes| - count
      {
        MoreChunks(chunks, count, n);
        assert LinkedAt(count);
        NextChunk(chunks, count);
        var o := p.data;
        u := if t > |o| then |o| else t;
        text, t := text + o[..u], t - u;
        if t == 0 {
          Rest(chunks, count, u, n);
          if u == |o| {
            count, p, u := count + 1, p.next, 0;
          }
          return;
        }
        count, p := count + 1, p.next;
      }
    }

    /** Collect the first `n` items across several nodes, as bytes: each piece is copied to its place. */
    method GatherBytes(n: nat) returns (bytes: seq<T>, p: Node?<T>, count: nat, u: nat)
      requires Valid() && chunks != [] && |chunks[0]| < n < |Flat(chunks)|
      ensures CutAt(n, p, count, u) && bytes == Flat(chunks)[..n]
    {
      hide Flat;
      assert LinkedAt(0);
      var out := new T[n];
      CopyInto(out, 0, head.data);
      p, count := head.next, 1;
      var t := n - |head.data|;
      FirstChunk(chunks);
      while true
        invariant Valid() && 1 <= count <= |nodes| && p == NodeAt(count)
        invariant 0 < t <= n && out[..n - t] == Flat(chunks[..count])
        decreases |nodes| - count
      {
        MoreChunks(chunks, count, n);
        assert LinkedAt(count);
        NextChunk(chunks, count);
        var o := p.data;
        u := if t > |o| then |o| else t;
        CopyInto(out, n - t, o[..u]);
        t := t - u;
        assert out[..n - t] == Flat(chunks[..count]) + o[..u];
        if t == 0 {
          bytes := out[..];
          assert bytes == out[..n];
          Rest(chunks, count, u, n);
          if u == |o| {
            count, p, u := count + 1, p.next, 0;
          }
          return;
        }
        count, p := count + 1, p.next;
      }
    }

    /** Cutting before item `u` of node `p` removes exactly `n` items. */
    ghost predicate CutAt(n: nat, p: Node?<T>, count: nat, u: nat)
      reads this, nodes
      requires Valid()
    {
      && count <= |nodes| && p == NodeAt(count) && (p == null ==> u == 0) && (p != null ==> u <= |chunks[count]|)
      && n == |Flat(chunks[..count])| + u
    }

    /** Remove the first `n` items across several nodes. */
    method TakeAcross(n: nat, text: bool) returns (r: seq<T>)
      requires Valid() && chunks != [] && |chunks[0]| < n < |Flat(chunks)|
      modifies this, nodes
      ensures Valid() && r == Flat(old(chunks))[..n] && Flat(chunks) == Flat(old(chunks))[n..]
      ensures exists k :: 0 <= k <= |old(nodes)| && nodes == old(nodes)[k..]
    {
      hide Flat;
      var p, count, u;
      if text {
        r, p, count, u := GatherText(n);
      } else {
        r, p, count, u := GatherBytes(n);
      }
      Rest(chunks, count, u, n);
      DropFront(p, count, u);
    }

    /** Take `n` items off the front: everything when `n` is 0 or not less than the total. */
    method FromList(n: nat, total: nat, objectMode: bool, text: bool) returns (r: Option<seq<T>>)
      requires Valid() && (objectMode ==> (total == 0 <==> chunks == [])) && (!objectMode ==> total == |Flat(chunks)|)
      modifies this, nodes
      ensures Valid()
      ensures total == 0 ==> r == None && chunks == old(chunks)
      ensures total > 0 && objectMode ==> r == Some(old(chunks)[0]) && chunks == old(chunks)[1..]
      ensures total > 0 && !objectMode && (n == 0 || n >= total) ==> r == Some(Flat(old(chunks))) && chunks == []
      ensures total > 0 && !objectMode && 0 < n < total ==>
                r == Some(Flat(old(chunks))[..n]) && Flat(chunks) == Flat(old(chunks))[n..]
    {
      if total == 0 {
        return None;
      }
      if objectMode {
        var d := Shift();
        return Some(d);
      }
      if n == 0 || n >= total {
        var all := Join();
        Clear();
        return Some(all);
      }
      assert LinkedAt(0);
      ghost var was := chunks;
      var first := head.data;
      assert Flat(was) == first + Flat(was[1..]);
      assert n <= |first| ==> Flat(was)[..n] == first[..n] && Flat(was)[n..] == first[n..] + Flat(was[1..]);
      if n < |first| {
        r := Some(first[..n]);
        DropFront(head, 0, n);
        assert chunks[0] == first[n..] && chunks[1..] == was[1..];
      } else if n == |first| {
        var d := Shift();
        r := Some(d);
      } else {
        var d := TakeAcross(n, text);
        r := Some(d);
      }
    }
  }

  method CopyInto<T>(out: array<T>, at: nat, data: seq<T>)
    requires at + |data| <= out.Length
    modifies out
    ensures out[..at + |data|] == old(out[..at]) + data
  {
    for i := 0 to |data|
      invariant forall j | 0 <= j < at :: out[j] == old(out[j])
      invariant forall j | at <= j < at + i :: out[j] == data[j - at]
    {
      out[at + i] := data[i];
    }
  }

  lemma FirstChunk<T>(c: seq<seq<T>>)
    requires c != []
    ensures Flat(c[..1]) == c[0]
  {
    assert c[..1][1..] == [];
  }

  /** While fewer than `n` of the items are in the first `k` chunks, there is another chunk. */
  lemma MoreChunks<T>(c: seq<seq<T>>, k: nat, n: nat)
    requires k <= |c| && |Flat(c[..k])| < n < |Flat(c)|
    ensures k < |c|
  {
    assert c[..|c|] == c;
  }

  /** What is left after the first `k` chunks and `u` items of the next. */
  lemma Rest<T>(c: seq<seq<T>>, k: nat, u: nat, n: nat)
    requires k <= |c| && (k < |c| ==> u <= |c[k]|) && (k == |c| ==> u == 0)
    requires n == |Flat(c[..k])| + u
    ensures n <= |Flat(c)|
    ensures Flat(c)[..n] == Flat(c[..k]) + (if k < |c| then c[k][..u] else [])
    ensures Flat(if k == |c| then [] else [c[k][u..]] + c[k + 1..]) == Flat(c)[n..]
  {
    assert c == c[..k] + c[k..];
    FlatAppend(c[..k], c[k..]);
    if k < |c| {
      assert c[k..][1..] == c[k + 1..];
      assert ([c[k][u..]] + c[k + 1..])[1..] == c[k + 1..];
      assert c[k] == c[k][..u] + c[k][u..];
    }
  }
}
