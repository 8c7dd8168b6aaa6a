/** What the reader makes of the packets that announce a file. */
module Header {
  import opened Common
  import opened Protocol
  import opened Replay

  /** Meta packets the reader takes without complaint. */
  predicate MetaFits(m: MetaBody) {
    match m
    case MetaOwner(_, _) => true
    case MetaTime(_, _) => true
    case MetaXAttr(name, value) => 0 !in name && SIZEOF_META + SIZEOF_XATTR + |name| + 1 + |value| <= BUFFER_CAPACITY
    case _ => false
  }

  /** Of the meta packets a writer sends, these are the ones that are taken. */
  lemma MetaAcceptedIffFits(s: ReaderState, file: nat, m: MetaBody)
    requires s.newfile == Some(file) && (m.MetaOwner? || m.MetaTime? || m.MetaXAttr?)
    ensures ApplyMeta(s, file, m).Ok? <==> MetaFits(m)
  {
  }

  ghost predicate MetasFit(metas: seq<Packet>, fid: nat) {
    forall i :: 0 <= i < |metas| ==> metas[i].Meta? && metas[i].file == fid && MetaFits(metas[i].meta)
  }

  lemma {:induction false} MetasAccepted(env: Environment, log: seq<Packet>, metas: seq<Packet>, fid: nat)
    requires Run(env, log).Ok? && Run(env, log).state.newfile == Some(fid) && MetasFit(metas, fid)
    ensures Run(env, log + metas) == Run(env, log)
  {
    if metas == [] {
      assert log + metas == log;
    } else {
      var k := |metas| - 1;
      MetasAccepted(env, log, metas[..k], fid);
      RunStep(env, log + metas[..k], metas[k]);
      assert log + metas == log + metas[..k] + [metas[k]];
    }
  }

  /** The reader knows exactly the ids that were announced. */
  lemma {:induction false} KnownFilesAreAnnounced(env: Environment, log: seq<Packet>, f: nat)
    requires Run(env, log).Ok?
    ensures f in Run(env, log).state.files <==>
            exists i :: 0 <= i < |log| && log[i].File? && FileType(log[i].mode) != M_FHARD && log[i].id == f
  {
    if log != [] {
      var n := |log| - 1;
      KnownFilesAreAnnounced(env, log[..n], f);
      assert forall i :: 0 <= i < n ==> log[i] == log[..n][i];
    }
  }

  /** What the writer may put into a FILE packet without the reader refusing it. */
  predicate NamesFit(mode: nat, name: seq<byte>, link: seq<byte>, node: Option<NodeId>) {
    var t := FileType(mode);
    && |name| + |link| + NodeSize(node) <= 0xFFFF
    && (t in {M_FREG, M_FDIR, M_FREF, M_FLNK} || (IsNode(t) && node.Some?))
    && (t == M_FLNK <==> link != [])
  }

  /** The packets that announce one file. */
  function Announcement(fid: nat, mode: nat, size: nat, name: seq<byte>, link: seq<byte>, node: Option<NodeId>,
                        metas: seq<Packet>): seq<Packet>
  {
    [File(fid, mode, size, name, link, node)] + metas + [Meta(fid, MetaEnd)]
  }

  lemma {:induction false} AnnouncementAccepted(env: Environment, log: seq<Packet>, fid: nat, mode: nat, size: nat,
                                                name: seq<byte>, link: seq<byte>, node: Option<NodeId>,
                                                metas: seq<Packet>)
    requires Run(env, log).Ok? && Run(env, log).state.newfile == None && fid !in Run(env, log).state.files
    requires NamesFit(mode, name, link, node) && FileType(mode) != M_FREF && 0 !in name && 0 !in link
             && MetasFit(metas, fid)
    ensures Run(env, log + Announcement(fid, mode, size, name, link, node, metas))
         == Ok(ReaderState(Run(env, log).state.files[fid := ReaderFile(size, mode, Opened(env, name, size))], None))
  {
    var p := File(fid, mode, size, name, link, node);
    RunStep(env, log, p);
    MetasAccepted(env, log + [p], metas, fid);
    RunStep(env, log + [p] + metas, Meta(fid, MetaEnd));
    assert log + Announcement(fid, mode, size, name, link, node, metas) == log + [p] + metas + [Meta(fid, MetaEnd)];
  }

  /** A new file without extents leaves all tracked files as they are. */
  lemma {:induction false} OtherFileAccepted(env: Environment, log: seq<Packet>, contents: map<nat, seq<byte>>,
                                             done: map<nat, nat>, fid: nat, mode: nat, size: nat, name: seq<byte>,
                                             link: seq<byte>, node: Option<NodeId>, metas: seq<Packet>)
    requires Mirrors(env, log, contents, done) && fid !in Run(env, log).state.files
    requires NamesFit(mode, name, link, node) && FileType(mode) != M_FREF && 0 !in name && 0 !in link
             && MetasFit(metas, fid)
    ensures Mirrors(env, log + Announcement(fid, mode, size, name, link, node, metas), contents, done)
  {
    AnnouncementAccepted(env, log, fid, mode, size, name, link, node, metas);
  }

  /** A new regular file starts with nothing transferred. */
  lemma {:induction false} RegularFileAccepted(env: Environment, log: seq<Packet>, contents: map<nat, seq<byte>>,
                                               done: map<nat, nat>, fid: nat, mode: nat, content: seq<byte>,
                                               name: seq<byte>, link: seq<byte>, node: Option<NodeId>,
                                               metas: seq<Packet>)
    requires Mirrors(env, log, contents, done) && fid !in Run(env, log).state.files
    requires NamesFit(mode, name, link, node) && FileType(mode) != M_FREF && 0 !in name && 0 !in link
             && MetasFit(metas, fid)
    ensures Mirrors(env, log + Announcement(fid, mode, |content|, name, link, node, metas),
                    contents[fid := content], done[fid := 0])
  {
    AnnouncementAccepted(env, log, fid, mode, |content|, name, link, node, metas);
  }

  /** The receiver already has the reference file. */
  ghost predicate ReceiverHas(env: Environment, name: seq<byte>, content: seq<byte>) {
    forall i {:trigger env(name, i)} :: 0 <= i < |content| ==> env(name, i) == content[i]
  }

  lemma {:induction false} ReferenceFileAccepted(env: Environment, log: seq<Packet>, contents: map<nat, seq<byte>>,
                                                 done: map<nat, nat>, fid: nat, content: seq<byte>, name: seq<byte>)
    requires Mirrors(env, log, contents, done) && fid !in Run(env, log).state.files
    requires |name| <= 0xFFFF && 0 !in name && ReceiverHas(env, name, content)
    ensures Mirrors(env, log + [File(fid, M_FREF, |content|, name, [], None)], contents[fid := content],
                    done[fid := |content|])
  {
    RunStep(env, log, File(fid, M_FREF, |content|, name, [], None));
    assert Opened(env, name, |content|) == content;
  }

  lemma {:induction false} HardlinkAccepted(env: Environment, log: seq<Packet>, contents: map<nat, seq<byte>>,
                                            done: map<nat, nat>, fid: nat, mode: nat, size: nat, name: seq<byte>)
    requires Mirrors(env, log, contents, done) && fid in Run(env, log).state.files
    requires FileType(mode) == M_FHARD && |name| <= 0xFFFF && 0 !in name
    ensures Mirrors(env, log + [File(fid, mode, size, name, [], None)], contents, done)
  {
    RunStep(env, log, File(fid, mode, size, name, [], None));
  }

  lemma {:induction false} FileEndAccepted(env: Environment, log: seq<Packet>, contents: map<nat, seq<byte>>,
                                           done: map<nat, nat>, fid: nat)
    requires Mirrors(env, log, contents, done) && fid in Run(env, log).state.files
    ensures Mirrors(env, log + [FileEnd(fid)], contents, done)
  {
    RunStep(env, log, FileEnd(fid));
  }

  /**
   * The writer lets names and targets of 65535 bytes each pass, empty symlink targets, and any
   * file type. The reader takes the packet of a new file if and only if they fit together.
   */
  lemma NewFileAcceptedIffNamesFit(env: Environment, s: ReaderState, id: nat, mode: nat, size: nat, name: seq<byte>,
                                   link: seq<byte>, node: Option<NodeId>)
    requires s.newfile == None && id !in s.files && FileType(mode) != M_FHARD
    requires 0 !in name && 0 !in link && |name| <= 0xFFFF && |link| <= 0xFFFF
    ensures Apply(env, s, File(id, mode, size, name, link, node)).Ok? <==> NamesFit(mode, name, link, node)
  {
  }

  /** A symlink the writer accepts and the reader refuses: name and target are too long together. */
  lemma LongSymlinkIsRefused(env: Environment, s: ReaderState, id: nat)
    requires s.newfile == None
    ensures var name, link := seq(0x8000, _ => 1), seq(0x8000, _ => 1);
            |name| <= 0xFFFF && |link| <= 0xFFFF
            && Apply(env, s, File(id, M_FLNK, 0x8000, name, link, None)) == Throw(FilePacketTooLarge)
  {
  }
}
