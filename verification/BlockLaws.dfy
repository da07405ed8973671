/** What the operations on a block file mean, apart from how they are carried out. */
module BlockLaws {
  import opened Contacts
  import opened Base64
  import opened BlockFiles

  // Byte by byte: what was written where it was written, and what was there elsewhere.
  lemma OverwriteAt(data: seq<Byte>, pos: nat, bytes: seq<Byte>)
    requires pos <= |data|
    ensures var r := Overwrite(data, pos, bytes);
            && |r| == (if pos + |bytes| > |data| then pos + |bytes| else |data|)
            && forall i :: 0 <= i < |r| ==>
                 r[i] == if pos <= i < pos + |bytes| then bytes[i - pos] else data[i]
  {
  }

  // Seeking goes where it is told, but not before the data and not behind them.
  lemma Sought(a: Abstract, writable: bool, to: int)
    requires a.pos <= |a.data|
    ensures var b := Apply(a, writable, Op.Seek(to)).0;
            && b.data == a.data && b.accounting == a.accounting
            && (0 <= to <= |a.data| ==> b.pos == to)
            && (to < 0 ==> b.pos == 0) && (to > |a.data| ==> b.pos == |a.data|)
  {
  }

  // A read takes the next bytes, as many as asked for and as there are, and leaves the others to
  // the next read.
  lemma ReadTakes(a: Abstract, writable: bool, len: Option<int>)
    requires a.pos <= |a.data|
    ensures var (b, out) := Apply(a, writable, Op.Read(len));
            && out.Got? && b.data == a.data && b.accounting == a.accounting && b.pos <= |b.data|
            && a.data[a.pos..] == out.bytes + b.data[b.pos..]
            && match len
               case None => b.pos == |b.data|
               case Some(n) =>
                 (n >= 0 ==> |out.bytes| <= n) && (n < 0 ==> out.bytes == [])
                 && (b.pos < |b.data| && n >= 0 ==> |out.bytes| == n)
  {
  }

  // What was written is read back, and the position stands behind it both times.
  lemma WriteThenRead(a: Abstract, bytes: seq<Byte>)
    requires a.pos <= |a.data|
    ensures var (b, out) := Apply(a, true, Op.Write(bytes));
            && out == Done && b.accounting == a.accounting && b.pos == a.pos + |bytes|
            && var c := Apply(b, true, Op.Seek(a.pos)).0;
               Apply(c, true, Op.Read(Some(|bytes|))) == (b, Got(bytes))
  {
    OverwriteAt(a.data, a.pos, bytes);
    var b := Apply(a, true, Op.Write(bytes)).0;
    assert b.data[a.pos..a.pos + |bytes|] == bytes;
  }

  // A file that was opened for reading never changes, and says so.
  lemma ReadOnly(a: Abstract, op: Op)
    requires a.pos <= |a.data|
    ensures var (b, out) := Apply(a, false, op);
            && b.data == a.data && b.accounting == a.accounting
            && (out == Raised <==> op.Write? || op.AddNode? || op.DelNode?)
  {
  }

  // Changing the accounting leaves the data and the position alone, and the other way round.
  lemma Apart(a: Abstract, writable: bool, op: Op)
    requires a.pos <= |a.data|
    ensures var b := Apply(a, writable, op).0;
            && (op.AddNode? || op.DelNode? ==> b.data == a.data && b.pos == a.pos)
            && (!op.AddNode? && !op.DelNode? ==> b.accounting == a.accounting)
            && (!op.Write? ==> b.data == a.data)
  {
  }
}
