/**
 * The random-replacement MMU of the working copy, PythonP2/randmmu.py: a
 * plain list of resident pages with no dirty bits, where every eviction is
 * counted as a disk write.
 */
module P2Rand {

  /** No page is resident twice. */
  ghost predicate Distinct(table: seq<nat>)
  {
    forall i, j :: 0 <= i < j < |table| ==> table[i] != table[j]
  }

  /**
   * The table after a miss on `page`: appended while there is room,
   * otherwise written over slot `victim`, the random draw.
   */
  function Inserted(table: seq<nat>, tableSize: nat, page: nat, victim: nat): (r: seq<nat>)
    requires |table| <= tableSize && victim < tableSize
    ensures page in r && |r| <= tableSize
    ensures forall x :: x in r ==> x == page || x in table
  {
    if |table| == tableSize then
      assert table[victim := page][victim] == page;
      table[victim := page]
    else
      assert (table + [page])[|table|] == page;
      table + [page]
  }

  class RandMMU {
    const tableSize: nat
    var table: seq<nat>
    var pageFaultCount: nat
    var writeDiskCount: nat
    var readDiskCount: nat

    /** At most `table_size` distinct pages; each fault either grew the table or overwrote (and wrote back) a slot. */
    ghost predicate Valid()
      reads this
    {
      tableSize >= 1 && |table| <= tableSize && Distinct(table)
      && readDiskCount == pageFaultCount && writeDiskCount + |table| == pageFaultCount
    }

    /** What a miss on `page` does; `victim` is the slot the random draw picks when the table is full. */
    twostate predicate Missed(page: nat, victim: nat): (r: bool)
      reads this
      ensures r ==> (page in table && |table| <= tableSize
                     && pageFaultCount == old(pageFaultCount) + 1 && readDiskCount == old(readDiskCount) + 1)
    {
      pageFaultCount == old(pageFaultCount) + 1 && readDiskCount == old(readDiskCount) + 1
      && victim < tableSize && |old(table)| <= tableSize
      && table == Inserted(old(table), tableSize, page, victim)
      && writeDiskCount == old(writeDiskCount) + (if |old(table)| == tableSize then 1 else 0)
    }

    constructor (frames: nat)
      requires frames >= 1
      ensures Valid() && tableSize == frames && table == []
      ensures pageFaultCount == 0 && writeDiskCount == 0 && readDiskCount == 0
    {
      tableSize := frames;
      table := [];
      pageFaultCount, writeDiskCount, readDiskCount := 0, 0, 0;
    }

    /** A read: a hit does nothing and a miss is handed to `write_memory`. */
    method ReadMemory(page: nat, victim: nat)
      requires Valid() && victim < tableSize
      modifies this
      ensures Valid()
      ensures page in old(table) ==>
        table == old(table) && pageFaultCount == old(pageFaultCount)
        && readDiskCount == old(readDiskCount) && writeDiskCount == old(writeDiskCount)
      ensures page !in old(table) ==> Missed(page, victim)
    {
      if page !in table {
        WriteMemory(page, victim);
      }
    }

    /** A write: a hit does nothing; a miss appends the page, or overwrites slot `victim` of a full table. */
    method WriteMemory(page: nat, victim: nat)
      requires Valid() && victim < tableSize
      modifies this
      ensures Valid()
      ensures page in old(table) ==>
        table == old(table) && pageFaultCount == old(pageFaultCount)
        && readDiskCount == old(readDiskCount) && writeDiskCount == old(writeDiskCount)
      ensures page !in old(table) ==> Missed(page, victim)
    {
      if page !in table {
        pageFaultCount := pageFaultCount + 1;
        readDiskCount := readDiskCount + 1;
        InsertKeepsDistinct(table, tableSize, page, victim);
        if |table| == tableSize {
          table := table[victim := page];
          writeDiskCount := writeDiskCount + 1;
        } else {
          table := table + [page];
        }
      }
    }

    method GetTotalDiskReads() returns (r: nat)
      ensures r == readDiskCount
    {
      return readDiskCount;
    }

    method GetTotalDiskWrites() returns (r: nat)
      ensures r == writeDiskCount
    {
      return writeDiskCount;
    }

    method GetTotalPageFaults() returns (r: nat)
      ensures r == pageFaultCount
    {
      return pageFaultCount;
    }
  }

  /**
   * A miss leaves the missed page resident, keeps the pages distinct and the
   * table within its size; on a full table exactly the one slot changes.
   */
  lemma InsertKeepsDistinct(table: seq<nat>, tableSize: nat, page: nat, victim: nat)
    requires |table| <= tableSize && victim < tableSize && Distinct(table) && page !in table
    ensures var r := Inserted(table, tableSize, page, victim);
      Distinct(r) && page in r && |r| <= tableSize
      && (|table| < tableSize ==> r == table + [page])
      && (|table| == tableSize ==>
            |r| == tableSize && r[victim] == page
            && forall i :: 0 <= i < |r| && i != victim ==> r[i] == table[i])
  {
    var r := Inserted(table, tableSize, page, victim);
    if |table| == tableSize {
      assert r[victim] == page;
    } else {
      assert r[|table|] == page;
    }
    forall i, j | 0 <= i < j < |r| ensures r[i] != r[j] {
      if |table| < tableSize {
        if j == |table| {
          assert r[i] == table[i];
        }
      } else if i == victim {
        assert r[j] == table[j];
      } else if j == victim {
        assert r[i] == table[i];
      }
    }
  }
}
