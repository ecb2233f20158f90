/** From the bytes of the file that is sent to the bytes of the file that is
    written, over channels that lose and damage datagrams. */
module Transfer {
  import opened Bytes
  import opened Common
  import opened Protocol
  import Safety
  import FileSize
  import LossFree
  import W = Wire
  import S = SenderSpec

  /** What successive reads of at most 512 bytes return. */
  function Blocks(file: seq<byte>): (blocks: seq<Block>)
    ensures forall i :: 0 <= i < |blocks| ==> 1 <= |blocks[i]| <= MAX_PAYLOAD_SIZE
  {
    if file == [] then []
    else if |file| <= MAX_PAYLOAD_SIZE then [file]
    else [file[..MAX_PAYLOAD_SIZE]] + Blocks(file[MAX_PAYLOAD_SIZE..])
  }

  /** What successive writes put into the file. */
  function Concatenated(blocks: seq<Block>): seq<byte> {
    if blocks == [] then [] else blocks[0] + Concatenated(blocks[1..])
  }

  lemma {:induction false} ConcatenatedBlocks(file: seq<byte>)
    ensures Concatenated(Blocks(file)) == file
  {
    if |file| > MAX_PAYLOAD_SIZE {
      ConcatenatedBlocks(file[MAX_PAYLOAD_SIZE..]);
      assert Blocks(file)[1..] == Blocks(file[MAX_PAYLOAD_SIZE..]);
    } else if file != [] {
      assert Blocks(file)[1..] == [];
    }
  }

  lemma {:induction false} ConcatenatedPrefix(blocks: seq<Block>, n: nat)
    requires n <= |blocks|
    ensures Concatenated(blocks[..n]) <= Concatenated(blocks)
  {
    if n > 0 {
      assert blocks[..n][1..] == blocks[1..][..n - 1];
      ConcatenatedPrefix(blocks[1..], n - 1);
    }
  }

  lemma {:induction false} BlockCount(file: seq<byte>, t: nat)
    requires |file| <= t * MAX_PAYLOAD_SIZE
    ensures |Blocks(file)| <= t
  {
    if |file| > MAX_PAYLOAD_SIZE {
      BlockCount(file[MAX_PAYLOAD_SIZE..], t - 1);
    }
  }

  function FileConfig(file: seq<byte>, w: nat): (c: Config)
    requires 1 <= w <= MAX_WINDOW_SIZE
    ensures c.Valid()
  {
    Config(Blocks(file), w)
  }

  /** The bytes written by the receiver after a run. */
  ghost function Written(file: seq<byte>, w: nat, run: seq<W.WireAction>): seq<byte>
    requires 1 <= w <= MAX_WINDOW_SIZE
  {
    Concatenated(W.Run(FileConfig(file, w), run).rcv.out)
  }

  /** Every new block was sent while there was room in the window. */
  ghost predicate SendsInRoom(c: Config, run: seq<W.WireAction>)
    requires c.Valid()
  {
    run == [] ||
    var past, a := run[..|run| - 1], run[|run| - 1];
    SendsInRoom(c, past) && (a.SendBlock? && W.Enabled(c, W.Run(c, past), a) ==> S.HasRoom(W.Run(c, past).snd))
  }

  lemma {:induction false} RoomCarriesOver(c: Config, run: seq<W.WireAction>)
    requires c.Valid() && SendsInRoom(c, run)
    ensures Safety.SendsInRoom(c, W.MeaningOf(c, run))
  {
    hide W.Run, Protocol.Run, W.WireInv, W.Meaning, W.Enabled, W.Step, W.Abstract;
    if run != [] {
      var past, a := run[..|run| - 1], run[|run| - 1];
      RoomCarriesOver(c, past);
      W.RunRefines(c, past);
      RoomStep(c, W.MeaningOf(c, past), W.Run(c, past), a);
    }
  }

  lemma RoomStep(c: Config, run: seq<Action>, s: W.State, a: W.WireAction)
    requires c.Valid() && Safety.SendsInRoom(c, run) && W.InRange(c, s) && W.Abstract(s) == Protocol.Run(c, run)
    requires a.SendBlock? && W.Enabled(c, s, a) ==> S.HasRoom(s.snd)
    ensures Safety.SendsInRoom(c, run + W.Meaning(c, s, a))
  {
    hide Protocol.Run, Safety.SendsInRoom, S.HasRoom;
    var meaning := W.Meaning(c, s, a);
    W.AtMostOne(c, s, a);
    if meaning == [] {
      assert run + meaning == run;
    } else {
      assert meaning == [meaning[0]];
      Safety.AppendInRoom(c, run, meaning[0]);
    }
  }

  lemma PrefixBytes(file: seq<byte>, out: seq<Block>)
    requires |out| <= |Blocks(file)| && out == Blocks(file)[..|out|]
    ensures Concatenated(out) <= file
  {
    ConcatenatedBlocks(file);
    ConcatenatedPrefix(Blocks(file), |out|);
  }

  lemma PrefixOfFile(file: seq<byte>, w: nat, run: seq<W.WireAction>)
    requires 1 <= w <= MAX_WINDOW_SIZE
    requires var c := FileConfig(file, w); Safety.WrotePrefix(c, Protocol.Run(c, W.MeaningOf(c, run)))
    ensures Written(file, w, run) <= file
  {
    var c := FileConfig(file, w);
    W.RunRefines(c, run);
    PrefixBytes(file, W.Run(c, run).rcv.out);
  }

  /** Whatever is lost and whichever damage is noticed, the bytes written are the
      first bytes of the file, for a file of any length, as long as the sender keeps
      to the window. */
  lemma PrefixInRoom(file: seq<byte>, w: nat, run: seq<W.WireAction>)
    requires 1 <= w <= MAX_WINDOW_SIZE && SendsInRoom(FileConfig(file, w), run)
    ensures Written(file, w, run) <= file
  {
    var c := FileConfig(file, w);
    RoomCarriesOver(c, run);
    Safety.FlowAlways(c, W.MeaningOf(c, run));
    PrefixOfFile(file, w, run);
  }

  /** The same for every run of the sender as it is, for files of at most
      `512 - w` blocks. */
  lemma PrefixOfSmallFile(file: seq<byte>, w: nat, run: seq<W.WireAction>)
    requires 1 <= w <= MAX_WINDOW_SIZE && |file| <= (512 - w) * MAX_PAYLOAD_SIZE
    ensures Written(file, w, run) <= file
  {
    var c := FileConfig(file, w);
    BlockCount(file, 512 - w);
    FileSize.TestAlways(c, W.MeaningOf(c, run));
    PrefixOfFile(file, w, run);
  }

  predicate Undisturbed(run: seq<W.WireAction>) {
    forall i :: 0 <= i < |run| ==> !run[i].LoseData? && !run[i].DamageData?
  }

  lemma {:induction false} UndisturbedCarriesOver(c: Config, run: seq<W.WireAction>)
    requires c.Valid() && Undisturbed(run)
    ensures LossFree.Lossless(W.MeaningOf(c, run))
  {
    if run != [] {
      var past, a := run[..|run| - 1], run[|run| - 1];
      UndisturbedCarriesOver(c, past);
      MeaningUndisturbed(c, W.Run(c, past), a);
      hide W.Run, W.Meaning;
    }
  }

  lemma MeaningUndisturbed(c: Config, s: W.State, a: W.WireAction)
    requires W.InRange(c, s) && Undisturbed([a])
    ensures LossFree.Lossless(W.Meaning(c, s, a))
  {
    assert [a][0] == a;
  }

  /** If no data packet is lost or damaged, the file written is a beginning of the
      file sent at any time, and the whole file once the receiver has met the
      zero-length packet; for the sender as it is and a file of any length. */
  lemma WholeFile(file: seq<byte>, w: nat, run: seq<W.WireAction>)
    requires 1 <= w <= MAX_WINDOW_SIZE && Undisturbed(run)
    ensures Written(file, w, run) <= file
    ensures W.Run(FileConfig(file, w), run).rcv.ended ==> Written(file, w, run) == file
  {
    var c := FileConfig(file, w);
    UndisturbedCarriesOver(c, run);
    LossFree.CompleteAtEnd(c, W.MeaningOf(c, run));
    W.RunRefines(c, run);
    ConcatenatedBlocks(file);
    PrefixOfFile(file, w, run);
  }
}
