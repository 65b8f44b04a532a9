/** The file allocation table: 32-bit entries of which 28 bits count, in mirrored copies. */
module FatTable {
  import opened Errno

  const TWO_28: nat := 0x1000_0000

  type Raw = x: int | 0 <= x < 0x1_0000_0000

  function Low(raw: nat): (v: nat)
    ensures v < TWO_28
  {
    raw % TWO_28
  }

  function High(raw: nat): nat {
    raw / TWO_28
  }

  /** The high bits of one entry with the low bits of another value. */
  function Mixed(raw: Raw, value: nat): (r: Raw)
    ensures Low(r) == Low(value) && High(r) == High(raw)
  {
    High(raw) * TWO_28 + Low(value)
  }

  ghost predicate Mirrored(copies: seq<seq<Raw>>, n: nat) {
    && |copies| > 0 && (forall i :: 0 <= i < |copies| ==> |copies[i]| == n)
    && forall i, k :: 0 <= i < |copies| && 0 <= k < n ==> Low(copies[i][k]) == Low(copies[0][k])
  }

  ghost function Lows(row: seq<Raw>): (r: seq<nat>)
    ensures |r| == |row| && forall k :: 0 <= k < |row| ==> r[k] == Low(row[k])
  {
    seq(|row|, k requires 0 <= k < |row| => Low(row[k]))
  }

  ghost function Tops(copies: seq<seq<Raw>>): seq<seq<nat>> {
    seq(|copies|, i requires 0 <= i < |copies| =>
      seq(|copies[i]|, k requires 0 <= k < |copies[i]| => High(copies[i][k])))
  }

  /** The high bits of every entry of every copy are those of `tops`. */
  ghost predicate Topped(copies: seq<seq<Raw>>, tops: seq<seq<nat>>) {
    && |copies| == |tops| && (forall i :: 0 <= i < |copies| ==> |copies[i]| == |tops[i]|)
    && forall i, k :: 0 <= i < |copies| && 0 <= k < |copies[i]| ==> High(copies[i][k]) == tops[i][k]
  }

  /** `tops` are the high bits found at mount time; they are kept for ever, whatever the driver does. */
  class Table {
    const entries: nat
    ghost const tops: seq<seq<nat>>
    var copies: seq<seq<Raw>>

    ghost predicate Valid()
      reads this
    {
      Mirrored(copies, entries) && Topped(copies, tops)
    }

    /** The table as every copy shows it. */
    ghost function View(): (fat: seq<nat>)
      requires Valid()
      reads this
      ensures |fat| == entries && forall k :: 0 <= k < entries ==> fat[k] < TWO_28
    {
      Lows(copies[0])
    }

    constructor (copies: seq<seq<Raw>>, entries: nat)
      requires Mirrored(copies, entries)
      ensures Valid() && this.copies == copies && this.entries == entries && tops == Tops(copies)
    {
      this.copies, this.entries, tops := copies, entries, Tops(copies);
    }

    /** `fat32_read_fat_entry` */
    method Get(cluster: nat) returns (rc: int, entry: nat)
      requires Valid()
      ensures rc == (if 2 <= cluster < entries then 0 else -EINVAL)
      ensures rc == 0 ==> entry == View()[cluster]
    {
      entry := 0;
      if cluster < 2 || cluster >= entries { return -EINVAL, 0; }
      entry := Low(copies[0][cluster]);
      rc := 0;
    }

    /** `fat32_write_fat_entry`: every copy gets the low 28 bits and keeps its own high four. */
    method Put(cluster: nat, value: nat) returns (rc: int)
      requires Valid()
      modifies this
      ensures Valid() && rc == (if 2 <= cluster < entries then 0 else -EINVAL)
      ensures rc == 0 ==> View() == old(View())[cluster := Low(value)]
      ensures rc != 0 ==> copies == old(copies)
      ensures |copies| == |old(copies)|
      ensures forall i, k :: 0 <= i < |copies| && 0 <= k < entries ==> High(copies[i][k]) == High(old(copies)[i][k])
    {
      if cluster < 2 || cluster >= entries { return -EINVAL; }
      for i := 0 to |copies|
        invariant |copies| == |old(copies)| && forall j :: 0 <= j < |copies| ==> |copies[j]| == entries
        invariant forall j :: i <= j < |copies| ==> copies[j] == old(copies)[j]
        invariant forall j, k :: 0 <= j < i && 0 <= k < entries ==>
          copies[j][k] == if k == cluster then Mixed(old(copies)[j][k], value) else old(copies)[j][k]
      {
        var row: seq<Raw> := copies[i][cluster := Mixed(copies[i][cluster], value)];
        copies := copies[i := row];
      }
      rc := 0;
    }
  }
}
