/**
  The address-list condenser: it reads two snapshots of addresses, one
  address per line, strips each line, keeps each snapshot's distinct
  addresses in the order they first appear while counting them, and then
  lists, in the order of the second snapshot, the addresses that are new
  in it, counting those too.

  Opening and reading the files is not modelled: a snapshot is given as
  the sequence of its lines, each with its line terminator if it had one.
 */
module CondenseAddressLists {
  import opened PyStrip
  import opened SeqViews

  /** The lines of a snapshot, each stripped: one address per line, none
      with whitespace at its ends, and the empty address exactly for a
      blank line. */
  function StripAll(lines: seq<string>): (r: seq<string>)
    ensures |r| == |lines|
    ensures forall i :: 0 <= i < |lines| ==> NoEdgeSpace(r[i]) && (AllSpace(lines[i]) <==> r[i] == "")
  {
    seq(|lines|, i requires 0 <= i < |lines| => Strip(lines[i]))
  }

  /** Every stripped line is free of whitespace at its ends, and a blank
      line strips to the empty address. */
  lemma StrippedLines(lines: seq<string>)
    ensures forall x :: x in StripAll(lines) ==> NoEdgeSpace(x)
    ensures forall i :: 0 <= i < |lines| && AllSpace(lines[i]) ==> "" in StripAll(lines)
  {
    var stripped := StripAll(lines);
    forall x | x in stripped ensures NoEdgeSpace(x) {
      var k :| 0 <= k < |stripped| && stripped[k] == x;
    }
    forall i | 0 <= i < |lines| && AllSpace(lines[i]) ensures "" in stripped {
      assert stripped[i] == "";
    }
  }

  /** One snapshot reader loop: for every line, strip it and append it
      unless it is already listed, counting each append. */
  method ReadSnapshot(lines: seq<string>) returns (addresses: seq<string>, counter: nat)
    ensures addresses == Distinct(StripAll(lines))
    ensures counter == |addresses| == |Elements(StripAll(lines))|
    ensures forall x :: x in addresses <==> x in StripAll(lines)
    ensures NoDuplicates(addresses) && OrderedBy(addresses, StripAll(lines))
    ensures forall x :: x in addresses ==> NoEdgeSpace(x)
    ensures forall i :: 0 <= i < |lines| && AllSpace(lines[i]) ==> "" in addresses
  {
    ghost var stripped := StripAll(lines);
    addresses, counter := [], 0;
    for i := 0 to |lines|
      invariant addresses == Distinct(stripped[..i])
      invariant counter == |addresses|
    {
      var strippedLine := Strip(lines[i]);
      assert stripped[i] == strippedLine;
      assert stripped[..i + 1][..i] == stripped[..i];
      if strippedLine !in addresses {
        addresses := addresses + [strippedLine];
        counter := counter + 1;
      }
    }
    assert stripped[..|lines|] == stripped;
    DistinctCount(stripped);
    StrippedLines(lines);
    DistinctOrdered(stripped);
  }

  /** The comparison loop: every address of the second snapshot that the
      first one does not list is appended, in order, and counted. */
  method NewAddresses(addresses1: seq<string>, addresses2: seq<string>)
    returns (condensed: seq<string>, newAddressCounter: nat)
    ensures condensed == Difference(addresses2, addresses1)
    ensures newAddressCounter == |condensed| <= |addresses2|
    ensures forall x :: x in condensed <==> x in addresses2 && x !in addresses1
    ensures NoDuplicates(addresses2) ==> OrderedBy(condensed, addresses2) && NoDuplicates(condensed)
  {
    condensed, newAddressCounter := [], 0;
    for i := 0 to |addresses2|
      invariant condensed == Difference(addresses2[..i], addresses1)
      invariant newAddressCounter == |condensed|
    {
      var addy2 := addresses2[i];
      assert addresses2[..i + 1][..i] == addresses2[..i];
      if addy2 !in addresses1 {
        condensed := condensed + [addy2];
        newAddressCounter := newAddressCounter + 1;
      }
    }
    assert addresses2[..|addresses2|] == addresses2;
    if NoDuplicates(addresses2) {
      DifferenceOrdered(addresses2, addresses1);
      OrderedNoDuplicates(condensed, addresses2);
    }
  }

  /** The whole condensing run over two snapshots: the addresses that the
      second snapshot lists and the first does not, each once, in order of
      first appearance in the second snapshot, and how many there are. */
  method Condense(snapshot1: seq<string>, snapshot2: seq<string>)
    returns (condensed: seq<string>, newAddressCounter: nat)
    ensures condensed == Difference(Distinct(StripAll(snapshot2)), Distinct(StripAll(snapshot1)))
    ensures forall x :: x in condensed <==> x in StripAll(snapshot2) && x !in StripAll(snapshot1)
    ensures NoDuplicates(condensed) && OrderedBy(condensed, StripAll(snapshot2))
    ensures newAddressCounter == |condensed| <= |Elements(StripAll(snapshot2))|
  {
    var addresses1, counter1 := ReadSnapshot(snapshot1);
    var addresses2, counter2 := ReadSnapshot(snapshot2);
    condensed, newAddressCounter := NewAddresses(addresses1, addresses2);
    OrderedTransitive(condensed, addresses2, StripAll(snapshot2));
  }
}
