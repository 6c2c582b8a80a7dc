/** The heap control structure: its lists and nodes changed in place. */
module HeapControl {
  import opened Wrappers
  import opened HeapTiling
  import opened Heap
  import opened PowersOfTwo

  class Control {
    var nodes: seq<Node>
    var freeNodes: seq<nat>
    var freeSpace: seq<nat>
    var used: seq<nat>

    function View(): State
      reads this
    {
      State(nodes, freeNodes, freeSpace, used)
    }

    constructor (s: State)
      ensures View() == s
    {
      nodes, freeNodes, freeSpace, used := s.nodes, s.freeNodes, s.freeSpace, s.used;
    }

    method AllocWithAlign(align: nat, want: nat) returns (r: Option<nat>)
      requires NodesKnown(View()) && align > 0
      modifies this
      ensures (View(), r) == MachineAlloc(old(View()), align, want)
    {
      r := None;
      if want == 0 {
        return;
      }
      var size := (want + align - 1) % WORD;
      Rounded(size, align);
      size := size / align * align;
      ghost var p := FirstFit(nodes, freeSpace, align, size);
      var i := 0;
      var pad := 0;
      while i < |freeSpace|
        invariant 0 <= i <= p
      {
        pad := RoundUp(nodes[freeSpace[i]].addr, align) - nodes[freeSpace[i]].addr;
        if size + pad <= nodes[freeSpace[i]].size {
          break;
        }
        i := i + 1;
      }
      if i == |freeSpace| {
        return;
      }
      assert i == p;
      if pad > 0 {
        r := CarvePadded(i, align, size, pad);
      } else {
        r := CarveFront(i, size);
      }
    }

    method CarvePadded(i: nat, align: nat, size: nat, pad: nat) returns (r: Option<nat>)
      requires NodesKnown(View()) && align > 0 && i < |freeSpace|
      requires pad == Pad(nodes[freeSpace[i]], align) && size + pad <= nodes[freeSpace[i]].size
      modifies this
      ensures (View(), r) == TakePadded(old(View()), i, align, size)
    {
      r := None;
      if freeNodes == [] {
        return;
      }
      var np := freeSpace[i];
      var b := nodes[np];
      var n := freeNodes[0];
      freeNodes := freeNodes[1..];
      if size + pad < b.size && freeNodes != [] {
        var rem := freeNodes[0];
        freeNodes := freeNodes[1..];
        nodes := nodes[rem := Node(b.addr + (size + pad), b.size - (size + pad))];
        freeSpace := freeSpace + [rem];
      } else if size + pad != b.size {
        freeNodes := [n] + freeNodes;
        assert freeNodes == old(freeNodes);
        return;
      }
      nodes := nodes[n := Node(b.addr + pad, size)];
      used := used + [n];
      nodes := nodes[np := Node(b.addr, pad)];
      r := Some(b.addr + pad);
    }

    method CarveFront(i: nat, size: nat) returns (r: Option<nat>)
      requires NodesKnown(View()) && i < |freeSpace| && size <= nodes[freeSpace[i]].size
      modifies this
      ensures (View(), r) == TakeFront(old(View()), i, size)
    {
      r := None;
      var np := freeSpace[i];
      var b := nodes[np];
      if size < b.size && freeNodes != [] {
        var n := freeNodes[0];
        freeNodes := freeNodes[1..];
        nodes := nodes[n := Node(b.addr, size)];
        nodes := nodes[np := Node(b.addr + size, b.size - size)];
        used := used + [n];
        r := Some(b.addr);
      } else if size == b.size {
        freeSpace := freeSpace[..i] + freeSpace[i + 1..];
        used := used + [np];
        r := Some(b.addr);
      }
    }

    method FreeBlock(ptr: nat)
      requires NodesKnown(View())
      modifies this
      ensures View() == Free(old(View()), ptr)
    {
      if ptr == 0 {
        return;
      }
      ghost var p := FindUsed(nodes, used, ptr);
      var i := 0;
      while i < |used| && !(nodes[used[i]].addr <= ptr < nodes[used[i]].End())
        invariant 0 <= i <= p
      {
        i := i + 1;
      }
      if i == |used| {
        return;
      }
      var np := used[i];
      used := used[..i] + used[i + 1..];
      Coalesce(np);
    }

    method Coalesce(np: nat)
      requires Known(nodes, freeSpace) && np < |nodes|
      modifies this
      ensures View() == Release(old(View()), np)
    {
      var b := nodes[np];
      ghost var q := FindSlot(nodes, freeSpace, b);
      var j := 0;
      while j < |freeSpace|
        invariant 0 <= j <= q && View() == old(View())
        invariant j + FindSlot(nodes, freeSpace[j..], b) == q
      {
        var f := nodes[freeSpace[j]];
        assert freeSpace[j..][0] == freeSpace[j] && freeSpace[j..][1..] == freeSpace[j + 1..];
        if b.End() == f.addr {
          nodes := nodes[freeSpace[j] := Node(b.addr, f.size + b.size)];
          freeNodes := freeNodes + [np];
          return;
        } else if b.addr == f.End() {
          nodes := nodes[freeSpace[j] := Node(f.addr, f.size + b.size)];
          freeNodes := freeNodes + [np];
          return;
        } else if f.End() < b.addr {
          freeSpace := freeSpace[..j + 1] + [np] + freeSpace[j + 1..];
          return;
        }
        j := j + 1;
      }
      freeSpace := freeSpace + [np];
    }

    method FreeSpace() returns (total: nat)
      requires Known(nodes, freeSpace)
      ensures total == Total(nodes, freeSpace)
    {
      total := 0;
      var i := 0;
      while i < |freeSpace|
        invariant 0 <= i <= |freeSpace|
        invariant total + Total(nodes, freeSpace[i..]) == Total(nodes, freeSpace)
      {
        assert freeSpace[i..][0] == freeSpace[i] && freeSpace[i..][1..] == freeSpace[i + 1..];
        total := total + nodes[freeSpace[i]].size;
        i := i + 1;
      }
    }
  }
}
