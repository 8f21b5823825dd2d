/** The write-and-delete probe (`checkWriteAndDeleteAccess`): create a
    directory and remove it again, then upload an empty file and delete it
    again, reporting which of the four commands the server accepted.

    A permission refusal is the signal being measured and is absorbed; any
    other failure escapes and ends the probe. The server is given as the
    reply it sends to each of the four commands. */
module Probe {
  import opened FtpReplies

  datatype Command = Mkd(dir: string) | Rmd(dir: string) | Stor(file: string) | Delete(file: string)

  /** Can create a directory, can delete it, can upload a file, can delete it. */
  datatype Access = Access(createDir: bool, deleteDir: bool, uploadFile: bool, deleteFile: bool)

  /** What the probe returned, and the commands it sent, in order. */
  datatype Run = Run(result: Result<Access>, issued: seq<Command>)

  /** One create-then-remove test: the two flags, and the commands sent. */
  datatype PairRun = PairRun(result: Result<(bool, bool)>, issued: seq<Command>)

  /** One test: `create` is sent; only when it is accepted is `remove` sent.
      A refusal clears the flag of its command; other failures escape. */
  function TryPair(create: Command, created: Reply, remove: Command, removed: Reply): (r: PairRun)
    ensures r.result.Ok? ==> (r.result.value.0 <==> created == Done)
    ensures r.result.Ok? ==> (r.result.value.1 <==> created == Done && removed == Done)
    ensures r.issued == (if created == Done then [create, remove] else [create])
    ensures r.result.Err? <==> Raises(created) || (created == Done && Raises(removed))
    ensures r.result.Err? ==> r.result.error == (if created == Done then removed.error else created.error)
  {
    match created
    case Failed(ErrorPerm) => PairRun(Ok((false, false)), [create])
    case Failed(e) => PairRun(Err(e), [create])
    case Done =>
      match removed
      case Failed(ErrorPerm) => PairRun(Ok((true, false)), [create, remove])
      case Failed(e) => PairRun(Err(e), [create, remove])
      case Done => PairRun(Ok((true, true)), [create, remove])
  }

  /** The reply the server gives to command `c`. */
  function ReplyTo(c: Command, mkd: Reply, rmd: Reply, stor: Reply, del: Reply): (reply: Reply) {
    match c
    case Mkd(_) => mkd
    case Rmd(_) => rmd
    case Stor(_) => stor
    case Delete(_) => del
  }

  /** The reply to the last command a run sent. */
  function LastReply(r: Run, mkd: Reply, rmd: Reply, stor: Reply, del: Reply): (reply: Reply) {
    if r.issued == [] then Done else ReplyTo(r.issued[|r.issued| - 1], mkd, rmd, stor, del)
  }

  /** The probe with directory name `dir` and file name `file`, against a
      server replying `mkd`, `rmd`, `stor` and `del` to the four commands. */
  function CheckWriteAndDeleteAccess(dir: string, file: string,
                                     mkd: Reply, rmd: Reply, stor: Reply, del: Reply): (r: Run)
    // a delete flag is set only when the matching create flag is
    ensures r.result.Ok? ==> (r.result.value.deleteDir ==> r.result.value.createDir)
    ensures r.result.Ok? ==> (r.result.value.deleteFile ==> r.result.value.uploadFile)
    // each flag says the server accepted its command
    ensures r.result.Ok? ==>
      && (r.result.value.createDir <==> mkd == Done)
      && (r.result.value.deleteDir <==> mkd == Done && rmd == Done)
      && (r.result.value.uploadFile <==> stor == Done)
      && (r.result.value.deleteFile <==> stor == Done && del == Done)
    // the directory is always created first; a remove follows only an accepted create
    ensures |r.issued| >= 1 && r.issued[0] == Mkd(dir)
    ensures Rmd(dir) in r.issued <==> mkd == Done
    ensures Delete(file) in r.issued <==> Stor(file) in r.issued && stor == Done
    // the file test runs whatever the directory test found, unless an error escaped it
    ensures Stor(file) in r.issued <==> !Raises(mkd) && !(mkd == Done && Raises(rmd))
    // and the commands go out in the order mkd, rmd, stor, delete
    ensures r.issued == (if mkd == Done then [Mkd(dir), Rmd(dir)] else [Mkd(dir)])
      + (if Stor(file) in r.issued then (if stor == Done then [Stor(file), Delete(file)] else [Stor(file)]) else [])
  {
    var d := TryPair(Mkd(dir), mkd, Rmd(dir), rmd);
    match d.result
    case Err(e) => Run(Err(e), d.issued)
    case Ok((createDir, deleteDir)) =>
      var f := TryPair(Stor(file), stor, Delete(file), del);
      var issued := d.issued + f.issued;
      match f.result
      case Err(e) => Run(Err(e), issued)
      case Ok((uploadFile, deleteFile)) =>
        Run(Ok(Access(createDir, deleteDir, uploadFile, deleteFile)), issued)
  }

  /** The probe stops at the first command whose failure escapes: every
      command sent before the last one was accepted or refused, and an error
      is returned exactly when the last one sent raised it. */
  lemma OnlyLastRaises(dir: string, file: string, mkd: Reply, rmd: Reply, stor: Reply, del: Reply)
    ensures forall k :: 0 <= k < |CheckWriteAndDeleteAccess(dir, file, mkd, rmd, stor, del).issued| - 1 ==>
      !Raises(ReplyTo(CheckWriteAndDeleteAccess(dir, file, mkd, rmd, stor, del).issued[k], mkd, rmd, stor, del))
    ensures CheckWriteAndDeleteAccess(dir, file, mkd, rmd, stor, del).result.Err? <==>
      Raises(LastReply(CheckWriteAndDeleteAccess(dir, file, mkd, rmd, stor, del), mkd, rmd, stor, del))
    ensures CheckWriteAndDeleteAccess(dir, file, mkd, rmd, stor, del).result.Err? ==>
      CheckWriteAndDeleteAccess(dir, file, mkd, rmd, stor, del).result.error
        == LastReply(CheckWriteAndDeleteAccess(dir, file, mkd, rmd, stor, del), mkd, rmd, stor, del).error
  {
    var r := CheckWriteAndDeleteAccess(dir, file, mkd, rmd, stor, del);
    var ds := if mkd == Done then [Mkd(dir), Rmd(dir)] else [Mkd(dir)];
    var fs := if stor == Done then [Stor(file), Delete(file)] else [Stor(file)];
    if Raises(mkd) {
      assert r == Run(Err(mkd.error), [Mkd(dir)]);
    } else if mkd == Done && Raises(rmd) {
      assert r == Run(Err(rmd.error), [Mkd(dir), Rmd(dir)]);
    } else {
      assert r.issued == ds + fs;
      assert ReplyTo(ds[0], mkd, rmd, stor, del) == mkd;
      assert ReplyTo(fs[0], mkd, rmd, stor, del) == stor;
      assert LastReply(r, mkd, rmd, stor, del) == (if stor == Done then del else stor);
      assert r.result.Err? <==> Raises(stor) || (stor == Done && Raises(del));
    }
  }

  /** The file test does not depend on how the directory test went, as long
      as no error escaped from it. */
  lemma FileTestIndependent(dir: string, file: string,
                            mkd: Reply, rmd: Reply, mkd': Reply, rmd': Reply, stor: Reply, del: Reply)
    requires !Raises(mkd) && !(mkd == Done && Raises(rmd))
    requires !Raises(mkd') && !(mkd' == Done && Raises(rmd'))
    ensures var r, r' := CheckWriteAndDeleteAccess(dir, file, mkd, rmd, stor, del),
                         CheckWriteAndDeleteAccess(dir, file, mkd', rmd', stor, del);
      && r.result.Ok? == r'.result.Ok?
      && (r.result.Ok? ==>
            && r.result.value.uploadFile == r'.result.value.uploadFile
            && r.result.value.deleteFile == r'.result.value.deleteFile)
  {
  }

  /** A server that refuses both creations: nothing is granted and no delete
      is sent. */
  lemma RefusingServer(dir: string, file: string, rmd: Reply, del: Reply)
    ensures CheckWriteAndDeleteAccess(dir, file, Failed(ErrorPerm), rmd, Failed(ErrorPerm), del)
         == Run(Ok(Access(false, false, false, false)), [Mkd(dir), Stor(file)])
  {
  }

  /** A server that accepts everything: all four rights are granted. */
  lemma AcceptingServer(dir: string, file: string)
    ensures CheckWriteAndDeleteAccess(dir, file, Done, Done, Done, Done)
         == Run(Ok(Access(true, true, true, true)), [Mkd(dir), Rmd(dir), Stor(file), Delete(file)])
  {
  }
}
