/** Snapshot lists from the writer to the reader (lib/fies_writer.c, lib/fies_reader.c). */
module Snapshots {
  import opened Common
  import opened Protocol
  import opened Reader

  const ERANGE: int := 34

  /** The payload of a snapshot list packet; lists and names have 16 bit lengths. */
  method FileSnapshots(names: seq<seq<byte>>) returns (rc: int, data: seq<byte>)
    ensures rc == 0 || rc == -ERANGE || rc == -ENAMETOOLONG
    ensures rc == 0 <==> |names| <= 0xFFFF && NamesOk(names)
    ensures rc == 0 ==> data == ListBytes(names)
  {
    data := [];
    if |names| > 0xFFFF {
      return -ERANGE, data;
    }
    var i := 0;
    while i != |names|
      invariant i <= |names| && NamesOk(names[..i]) && data == ListBytes(names[..i])
      decreases |names| - i
    {
      if |names[i]| > 0xFFFF {
        return -ENAMETOOLONG, data;
      }
      assert names[..i + 1][..i] == names[..i];
      data := data + EntryBytes(names[i]);
      i := i + 1;
    }
    assert names[..|names|] == names;
    return 0, data;
  }

  /** Names are the only ones with their bytes, so a list is good if and only if its last name is not empty. */
  lemma {:induction false} ListIsGood(names: seq<seq<byte>>)
    requires NamesOk(names)
    ensures GoodList(ListBytes(names)) <==> EndsInName(names)
  {
    if GoodList(ListBytes(names)) {
      var others :| NamesOk(others) && EndsInName(others) && ListBytes(others) == ListBytes(names);
      ListBytesInjective(others, names);
    }
  }

  /**
   * Of the lists the writer sends the reader takes exactly those whose last name is not empty:
   * only these are ever delivered, and only the others are ever refused.
   */
  lemma {:induction false} ListIsTakenIff(r: FiesReader, names: seq<seq<byte>>)
    requires NamesOk(names) && r.funcs.snapshots.Some? && SIZEOF_LIST <= r.pktSize < U64
    requires Bytes(r.input, r.mark.pos + SIZEOF_PACKET + SIZEOF_LIST, r.pktSize - SIZEOF_LIST) == ListBytes(names)
    ensures r.state == Begin && r.ListGoes() ==> EndsInName(names)
    ensures U32Of(r.Body(), 0) in r.files ==> (ListRefused(r.files, r.Body()) <==> !EndsInName(names))
  {
    hide ListBytes, NamesOk, U32Of, EndsInName;
    ListIsGood(names);
    r.BodyParts();
    NumbersOfPrefix(r.Body(), SIZEOF_LIST);
    if r.state == Begin && r.ListGoes() {
      var others := r.effects[|r.mark.effects|].names;
      ListBytesInjective(others, names);
    }
  }

  /** A list that the writer sends and the reader refuses: its last name is empty. */
  lemma {:induction false} EmptyLastNameIsRefused()
    ensures NamesOk([[65], []]) && ListBytes([[65], []]) == [1, 0, 65, 0, 0]
    ensures !GoodList([1, 0, 65, 0, 0])
  {
    var names: seq<seq<byte>> := [[65], []];
    assert names[..1] == [[65]] && names[..1][..0] == [];
    ListOfOne([65]);
    ListIsGood(names);
  }

  /** What the reader delivers for such a list are its names, in order. */
  lemma {:induction false} DeliveredNames(r: FiesReader, before: seq<Effect>, handle: nat, start: nat,
                                          names: seq<seq<byte>>)
    requires r.Delivered(before, handle, start) && NamesOk(names)
             && Bytes(r.input, start, r.extent.length) == ListBytes(names)
    ensures r.effects == before + [Listed(handle, names)]
  {
    ListBytesInjective(r.effects[|before|].names, names);
  }
}
