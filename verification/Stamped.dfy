/** What an import writes, field by field: the index metadata a file ends up with, where it
    is taken from, and the row that holds it (memsom/bridge/bridge_import.py). */
module Stamped {
  import opened Base
  import opened Frontmatter
  import opened Dag
  import opened MemoryTree
  import opened Filing
  import opened Importer
  import opened Reconciled
  import opened Reimport
  import Healing
  import Literals

  lemma StemIs(stem: string)
    requires stem != ""
    ensures Stem(stem + ".md") == stem
  {
  }

  // ----- where a value comes from

  /** The first of the three that is there and not empty. */
  function FirstFilled(a: Option<string>, b: Option<string>, c: Option<string>): Option<string> {
    if a.Some? && a.value != "" then a
    else if b.Some? && b.value != "" then b
    else if c.Some? && c.value != "" then c
    else None
  }

  /** Empty and absent are the same to whoever renders the index. */
  function Filled(a: Option<string>): Option<string> {
    FirstFilled(a, None, None)
  }

  function CuratedTitle(line: Option<IndexLine>): Option<string> {
    if line.Some? then Some(line.value.title) else None
  }

  function CuratedHook(line: Option<IndexLine>): Option<string> {
    if line.Some? then line.value.hook else None
  }

  function CuratedSection(line: Option<IndexLine>): Option<string> {
    if line.Some? then Some(line.value.section) else None
  }

  function LineOf(st: Settings, name: string): Option<IndexLine> {
    if name in st.primary then Some(st.primary[name]) else None
  }

  /** A curated line with a hook, be it the empty one, is taken as it stands. */
  predicate AsItStands(line: Option<IndexLine>) {
    line.Some? && line.value.hook.Some?
  }

  /** The value is the curated one, else the file's own, else the stored one. */
  predicate InOrder(made: Option<string>, curated: Option<string>, own: Option<string>, stored: Option<string>) {
    Filled(made) == FirstFilled(curated, own, stored)
  }

  /** An empty curated value keeps the others out. */
  predicate Shadowed(line: Option<IndexLine>, curated: Option<string>, own: Option<string>, stored: Option<string>) {
    AsItStands(line) && Filled(curated).None? && FirstFilled(own, stored, None).Some?
  }

  /** The file says of itself that it is out of the index. */
  predicate Withdraws(own: Fields) {
    || ("section" in own && Spells(own["section"], "none"))
    || ("index" in own && (Spells(own["index"], "false") || Spells(own["index"], "no") || own["index"] == "0"))
  }

  /** The file is a new feedback file, or one held back before, that gives no reason for a
      line of its own and has none in the index. */
  predicate IsHeld(st: Settings, stem: string, line: Option<IndexLine>, own: Fields, stored: Fields, known: bool) {
    && st.bornRule && line.None? && !Withdraws(own)
    && "feedback_" <= stem && !("feedback_cluster_" <= stem)
    && Filled(Get(own, "why_own_line")).None?
    && (var section := FirstFilled(None, Get(own, "section"), Get(stored, "section"));
        section.Some? && Spells(section.value, "feedback"))
    && (!known || Get(stored, "index_pending") == Some("needs_cluster"))
  }

  /** One field: the order above holds unless an empty curated value keeps the others out. */
  predicate FieldAs(line: Option<IndexLine>, curated: Option<string>, own: Option<string>, stored: Option<string>, made: Option<string>) {
    && (InOrder(made, curated, own, stored) <==> !Shadowed(line, curated, own, stored))
    && (AsItStands(line) ==> made == curated)
  }

  /** The index metadata of a note, by where it comes from: `own` are the file's fields and
      `stored` those of the node it replaces. */
  ghost predicate FiledAs(st: Settings, stem: string, own: Fields, stored: Fields, known: bool, made: Fields) {
    var line := LineOf(st, stem + ".md");
    var held := IsHeld(st, stem, line, own, stored, known);
    && FieldAs(line, CuratedTitle(line), Get(own, "index_title"), Get(stored, "index_title"), Get(made, "index_title"))
    && FieldAs(line, CuratedHook(line), Get(own, "index_hook"), Get(stored, "index_hook"), Get(made, "index_hook"))
    && (Withdraws(own) || held ==> "section" !in made)
    && (!Withdraws(own) && !held ==>
        FieldAs(line, CuratedSection(line), Get(own, "section"), Get(stored, "section"), Get(made, "section")))
    && Get(made, "index_pending") == if held then Some("needs_cluster") else None
  }

  lemma WithdrawsIs(own: Fields)
    ensures Withdrawn(own) <==> Withdraws(own)
  {
    LowerIsSpells(Filing.Text(Get(own, "section")), "none");
    LowerIsSpells(Filing.Text(Get(own, "index")), "false");
    LowerIsSpells(Filing.Text(Get(own, "index")), "no");
    LowerIsSpells(Filing.Text(Get(own, "index")), "0");
    assert !Spells("", "none") && !Spells("", "false") && !Spells("", "no");
    hide Lower;
    assert Spells(Filing.Text(Get(own, "index")), "0") <==> Filing.Text(Get(own, "index")) == "0";
  }

  lemma PrefixIs(s: string, t: string)
    ensures StartsWith(s, t) <==> t <= s
  {
  }

  lemma ChainIs(st: Settings, name: string, own: Fields, stored: Fields)
    ensures var line, m := LineOf(st, name), Chained(st, name, own, stored);
      && FieldAs(line, CuratedTitle(line), Get(own, "index_title"), Get(stored, "index_title"), m.title)
      && FieldAs(line, CuratedHook(line), Get(own, "index_hook"), Get(stored, "index_hook"), m.hook)
      && FieldAs(line, CuratedSection(line), Get(own, "section"), Get(stored, "section"), m.section)
      && m.pending.None?
  {
  }

  /** What the chain, the withdrawal and the anti-creep rule come to. */
  lemma ResolvedIsFiled(st: Settings, stem: string, own: Fields, stored: Fields, known: bool, made: Fields)
    requires stem != "" && (known || stored == map[])
    requires ReadsBack(made, Resolved(st, stem + ".md", own, stored, known))
    ensures FiledAs(st, stem, own, stored, known, made)
  {
    hide Chained, FieldAs, HeldBack, IsHeld, Withdrawn, Withdraws;
    ChainIs(st, stem + ".md", own, stored);
    WithdrawsIs(own);
    HeldIs(st, stem, own, stored, known);
  }

  lemma HeldIs(st: Settings, stem: string, own: Fields, stored: Fields, known: bool)
    requires stem != "" && (known || stored == map[])
    ensures HeldBack(st, stem + ".md", own, stored, known) <==> IsHeld(st, stem, LineOf(st, stem + ".md"), own, stored, known)
  {
    StemIs(stem);
    WithdrawsIs(own);
    PrefixIs(stem, FEEDBACK_PREFIX);
    PrefixIs(stem, CLUSTER_PREFIX);
    LowerIsSpells(Filing.Text(Offered(st, stem + ".md", own, stored).section), "feedback");
    assert !Spells("", "feedback");
    hide Stem, Withdrawn, Withdraws, Lower, StartsWith, Spells;
  }

  // ----- the row

  /** The type a file declares, else the part of its name in front of the first underscore. */
  predicate IsTyped(stem: string, own: Fields, kind: string) {
    if "type" in own && own["type"] != "" then kind == own["type"]
    else '_' !in kind && (stem == kind || kind + "_" <= stem)
  }

  lemma {:induction false} PrefixIsTyped(stem: string, kind: string)
    requires '_' !in kind
    ensures PrefixBefore(stem, '_') == kind <==> stem == kind || kind + "_" <= stem
  {
    if kind != "" && stem != "" && stem[0] == kind[0] {
      assert forall c | c in kind[1..] :: c in kind;
      PrefixIsTyped(stem[1..], kind[1..]);
      assert stem == [stem[0]] + stem[1..] && kind == [kind[0]] + kind[1..];
      assert kind + "_" == [kind[0]] + (kind[1..] + "_");
      assert kind[0] in kind;
    } else {
      assert kind != "" ==> kind[0] in kind;
      assert kind != "" ==> (kind + "_")[0] == kind[0];
      assert kind == "" ==> kind + "_" == "_";
    }
  }

  /** Feedback, user and personal notes are endorsed, all others the user's. */
  lemma ChannelIs(stem: string, own: Fields)
    ensures ChannelFor(stem, own) ==
      if IsTyped(stem, own, "feedback") || IsTyped(stem, own, "user") || IsTyped(stem, own, "personal") then Endorsed else User
  {
    PrefixIsTyped(stem, "feedback");
    PrefixIsTyped(stem, "user");
    PrefixIsTyped(stem, "personal");
  }

  /** The directory of a file, as the tree allows it. */
  predicate IsSubdir(dir: seq<string>, text: Option<string>) {
    && (|dir| == 0 ==> text.None?)
    && (|dir| == 1 ==> text == Some(dir[0]))
    && (|dir| == 2 ==> text == Some(dir[0] + "/" + dir[1]))
  }

  lemma SubdirIs(dir: seq<string>)
    ensures IsSubdir(dir, Subdir(dir))
  {
    if |dir| == 2 {
      assert dir[..1][1..] == [];
      assert MemoryTree.Joined(dir[..1]) == dir[0] + "/" + "" == dir[0] + "/";
    }
  }

  /** What was live for the name before. */
  ghost function OldFields(nodes: map<nat, Row>, rel: string): Fields {
    if ExistingRow(nodes, rel).Some? then TopLevel(ExistingRow(nodes, rel).value.content.lines) else map[]
  }

  /** A note written for a file: filed as above, in its directory, otherwise as the file is. */
  ghost predicate NoteFor(st: Settings, s: State, e: Entry, stem: string, made: Note) {
    var rel := e.path.name;
    var fm := TopLevel(made.lines);
    && FiledAs(st, stem, Flat(e.file.raw.lines), OldFields(s.nodes, rel), ExistingRow(s.nodes, rel).Some?, fm)
    && IsSubdir(e.path.dir, Get(fm, "memory_subdir"))
    && (forall k | k !in {"section", "index_title", "index_hook", "memory_subdir", "index_pending"} ::
          Get(fm, k) == Get(TopLevel(e.file.raw.lines), k))
    && made.body == e.file.raw.body
  }

  /** The row around it: live, untouched, on the channel of its type, and with the forgetting
      layer's columns of the node it replaced, if there was one. */
  ghost predicate WrittenFor(st: Settings, s: State, e: Entry, stem: string, now: int, row: Row) {
    var rel := e.path.name;
    var own := Flat(e.file.raw.lines);
    var old_ := ExistingRow(s.nodes, rel);
    && NoteFor(st, s, e, stem, row.content) && row.contentHash == Some(st.hash(row.content))
    && row.bridgePath == Some(rel) && row.bridgeMtime == Some((e.file.mtime, e.file.size))
    && row.sourceRef == Some("memory:" + stem) && row.createdAt == now
    && (if IsTyped(stem, own, "feedback") || IsTyped(stem, own, "user") || IsTyped(stem, own, "personal")
        then row.channel == Endorsed && row.integrity == 3 else row.channel == User && row.integrity == 2)
    && !row.tombstoned && !row.redacted && !row.quarantined && !row.archived && !row.stale && row.conf == 0
    && (old_.Some? ==> row.forget == old_.value.forget)
    && (old_.None? ==> row.forget.rs == 1.0 && row.forget.ss == 0.0 && row.forget.count == 0 && row.forget.tier == "hot")
  }

  lemma NoteIsWritten(st: Settings, s: State, e: Entry, stem: string)
    requires Split(e) && e.path.name == stem + ".md" && stem != ""
    ensures NoteFor(st, s, e, stem, StampedFor(st, e, ExistingRow(s.nodes, e.path.name)))
  {
    var old_ := ExistingRow(s.nodes, e.path.name);
    var m := MetaFor(st, e, old_);
    var kv := StampsFor(m, e.path.dir);
    var made := StampedFor(st, e, old_);
    StampsDistinct(m, e.path.dir);
    StampedReadsBack(e.file.raw, m, e.path.dir);
    ResolvedIsFiled(st, stem, Flat(e.file.raw.lines), OldFields(s.nodes, e.path.name), old_.Some?, TopLevel(made.lines));
    SubdirIs(e.path.dir);
    assert kv[3] == ("memory_subdir", Subdir(e.path.dir));
    StampReadBack(e.file.raw, kv, "memory_subdir");
    assert StampedKeys(kv) == {"section", "index_title", "index_hook", "memory_subdir", "index_pending"} by { KeysAre(m, e.path.dir); }
    hide Resolved, FiledAs, Stem, Flat, Subdir, IsSubdir;
    forall k | k !in {"section", "index_title", "index_hook", "memory_subdir", "index_pending"}
      ensures Get(TopLevel(made.lines), k) == Get(TopLevel(e.file.raw.lines), k)
    {
      StampReadBack(e.file.raw, kv, k);
    }
  }

  lemma KeysAre(m: Meta, dir: seq<string>)
    ensures StampedKeys(StampsFor(m, dir)) == {"section", "index_title", "index_hook", "memory_subdir", "index_pending"}
  {
    var kv := StampsFor(m, dir);
    assert kv[0].0 == "section" && kv[1].0 == "index_title" && kv[2].0 == "index_hook" && kv[3].0 == "memory_subdir" && kv[4].0 == "index_pending";
    assert forall i | 0 <= i < 5 :: kv[i].0 in StampedKeys(kv);
  }

  lemma RowIsWritten(st: Settings, s: State, e: Entry, stem: string, now: int)
    requires Split(e) && e.path.name == stem + ".md" && stem != ""
    ensures WrittenFor(st, s, e, stem, now, MintedRow(st, e, ExistingRow(s.nodes, e.path.name), now))
  {
    NoteIsWritten(st, s, e, stem);
    StemIs(stem);
    ChannelIs(stem, Flat(e.file.raw.lines));
    hide StampedFor, NoteFor, Stem, ChannelFor, IsTyped, Flat;
  }

  /** The row an import leaves live for a file it wrote: stamped so from the file's own
      fields, read as flat, and those of the node it replaced. */
  lemma ImportedRowIsFiled(st: Settings, s: State, files: seq<Entry>, now: int, i: nat, stem: string)
    requires Counted(s) && Healing.DistinctNames(files) && OneLivePerPath(s.nodes) && i < |files|
    requires Split(files[i]) && Writes(VerdictIn(st, s.nodes, files[i])) && files[i].path.name == stem + ".md" && stem != ""
    ensures var t := Imported(st, s, files, now).nodes;
      exists id :: LiveSet(t, stem + ".md") == {id} && id !in s.nodes && WrittenFor(st, s, files[i], stem, now, t[id])
  {
    var e := files[i];
    var rel := e.path.name;
    var t := Imported(st, s, files, now).nodes;
    EveryFileHasItsNode(st, s, files, now, i);
    RowIsWritten(st, s, e, stem, now);
    hide Imported, VerdictIn, WrittenFor, MintedRow, ExistingRow, StampedFor;
    var id :| LiveSet(t, rel) == {id} && id !in s.nodes;
    assert id in LiveSet(t, rel);
    ImportRowFate(st, s, files, now, id);
    OnlyMintedFor(st, s, files, now, e, t[id]);
  }

  lemma OnlyMintedFor(st: Settings, s: State, files: seq<Entry>, now: int, e: Entry, row: Row)
    requires Healing.DistinctNames(files) && e in files && MintedBy(st, s.nodes, files, now, row) && row.bridgePath == Some(e.path.name)
    ensures row == MintedRow(st, e, ExistingRow(s.nodes, e.path.name), now)
  {
    var x :| x in files && Writes(VerdictIn(st, s.nodes, x)) && row == MintedRow(st, x, ExistingRow(s.nodes, x.path.name), now);
    MintedFor(st, x, ExistingRow(s.nodes, x.path.name), now);
    hide MintedRow, VerdictIn, ExistingRow;
    assert x.path.name == e.path.name;
    SameNameSameFile(files, x, e);
  }

  lemma SameNameSameFile(files: seq<Entry>, a: Entry, b: Entry)
    requires Healing.DistinctNames(files) && a in files && b in files && a.path.name == b.path.name
    ensures a == b
  {
  }

  // ----- an empty curated hook

  /** The documented order fails for a curated line without a hook: its hook is empty and not
      absent, so the chain does not run, and the file's own hook is not looked at. */
  lemma HooklessLineHidesTheHook(st: Settings, stem: string, own: Fields, stored: Fields, known: bool, made: Fields)
    requires stem != "" && (known || stored == map[])
    requires stem + ".md" in st.primary && st.primary[stem + ".md"].hook == Some("")
    requires Get(own, "index_hook") == Some("read me")
    requires ReadsBack(made, Resolved(st, stem + ".md", own, stored, known))
    ensures Get(made, "index_hook") == Some("")
  {
    ResolvedIsFiled(st, stem, own, stored, known, made);
  }

  // ----- what a run counts

  /** The newest live row of the name decides: redacted, it is not revived; with the hash of
      the note that would be written, it is left alone. */
  ghost predicate JudgedBy(st: Settings, nodes: map<nat, Row>, e: Entry, id: nat, v: Verdict) {
    && IsNewest(nodes, e.path.name, id) && ExistingRow(nodes, e.path.name) == Some(nodes[id])
    && (v == Refuse <==> nodes[id].redacted)
    && (v == Skip <==> !nodes[id].redacted && nodes[id].contentHash == Some(st.hash(StampedFor(st, e, Some(nodes[id])))))
  }

  /** How a file is judged, by the live rows of its name. */
  lemma VerdictIs(st: Settings, nodes: map<nat, Row>, e: Entry)
    ensures var v := VerdictIn(st, nodes, e);
      && (v == Create <==> forall id | id in nodes && nodes[id].bridgePath == Some(e.path.name) :: nodes[id].tombstoned)
      && (v != Create ==> exists id :: JudgedBy(st, nodes, e, id, v))
  {
    hide StampedFor;
    var id := ExistingId(nodes, e.path.name);
    if id.Some? { assert JudgedBy(st, nodes, e, id.value, VerdictIn(st, nodes, e)); }
    if forall id | id in nodes && nodes[id].bridgePath == Some(e.path.name) :: nodes[id].tombstoned {
      assert LiveSet(nodes, e.path.name) == {};
    }
    if LiveSet(nodes, e.path.name) == {} {
      forall id | id in nodes && nodes[id].bridgePath == Some(e.path.name) ensures nodes[id].tombstoned {
        assert id !in LiveSet(nodes, e.path.name);
      }
    }
  }

  ghost function Judged(st: Settings, nodes: map<nat, Row>, files: seq<Entry>, v: Verdict): set<Entry> {
    set e | e in files && VerdictIn(st, nodes, e) == v
  }

  /** A file is counted as held out of the index exactly when the rule holds it. */
  lemma BornIsHeld(st: Settings, nodes: map<nat, Row>, e: Entry, stem: string)
    requires e.path.name == stem + ".md" && stem != ""
    ensures BornIn(st, nodes, e) <==>
      IsHeld(st, stem, LineOf(st, e.path.name), Flat(e.file.raw.lines), OldFields(nodes, e.path.name), ExistingRow(nodes, e.path.name).Some?)
  {
    var own := Flat(e.file.raw.lines);
    HeldIs(st, stem, own, OldFields(nodes, e.path.name), ExistingRow(nodes, e.path.name).Some?);
    ChainIs(st, e.path.name, own, OldFields(nodes, e.path.name));
    hide HeldBack, IsHeld, Flat, Chained;
  }

  ghost function HeldBackIn(st: Settings, nodes: map<nat, Row>, files: seq<Entry>): set<Entry> {
    set e | e in files && BornIn(st, nodes, e)
  }

  /** The counters are those of `start` and one for each file, by how it is judged. */
  ghost predicate CountsFrom(st: Settings, nodes: map<nat, Row>, files: seq<Entry>, start: Stats, r: Stats) {
    && r.created == start.created + |Judged(st, nodes, files, Create)|
    && r.updated == start.updated + |Judged(st, nodes, files, Update)|
    && r.tombstoned == start.tombstoned + |Judged(st, nodes, files, Update)|
    && r.skipped == start.skipped + |Judged(st, nodes, files, Skip)|
    && r.refused == start.refused + |Judged(st, nodes, files, Refuse)|
    && r.born == start.born + |HeldBackIn(st, nodes, files)|
    && r.total == start.total && r.dedup == start.dedup && r.quarantined == start.quarantined && r.swept == start.swept
  }

  lemma {:induction false} TallyCounts(st: Settings, nodes: map<nat, Row>, files: seq<Entry>, start: Stats)
    requires Healing.DistinctNames(files)
    ensures CountsFrom(st, nodes, files, start, Importer.Tally(st, nodes, files, start))
  {
    hide *;
    if files == [] {
      NothingCounted(st, nodes, start);
    } else {
      var n := |files| - 1;
      OneMore(st, nodes, files);
      TallyCounts(st, nodes, files[..n], start);
      TallyStep(st, nodes, files, start);
      OneCounted(st, nodes, files, start, Importer.Tally(st, nodes, files[..n], start));
    }
  }

  lemma NothingCounted(st: Settings, nodes: map<nat, Row>, start: Stats)
    ensures CountsFrom(st, nodes, [], start, Importer.Tally(st, nodes, [], start))
    ensures forall v :: Judged(st, nodes, [], v) == {}
  {
    hide VerdictIn, BornIn;
    assert HeldBackIn(st, nodes, []) == {};
  }

  lemma TallyStep(st: Settings, nodes: map<nat, Row>, files: seq<Entry>, start: Stats)
    requires files != []
    ensures var n := |files| - 1;
      Importer.Tally(st, nodes, files, start) ==
        Importer.Tallied(Importer.Tally(st, nodes, files[..n], start), VerdictIn(st, nodes, files[n]), BornIn(st, nodes, files[n]))
  {
    hide VerdictIn, BornIn, Importer.Tallied;
  }

  lemma OneCounted(st: Settings, nodes: map<nat, Row>, files: seq<Entry>, start: Stats, c: Stats)
    requires Healing.DistinctNames(files) && files != []
    requires CountsFrom(st, nodes, files[..|files| - 1], start, c)
    ensures var n := |files| - 1;
      CountsFrom(st, nodes, files, start, Importer.Tallied(c, VerdictIn(st, nodes, files[n]), BornIn(st, nodes, files[n])))
  {
    hide VerdictIn, BornIn, Judged, HeldBackIn, Healing.DistinctNames;
    OneMore(st, nodes, files);
    var e := files[|files| - 1];
    TalliedIs(c, VerdictIn(st, nodes, e), BornIn(st, nodes, e));
    hide Importer.Tallied;
  }

  lemma TalliedIs(c: Stats, v: Verdict, born: bool)
    ensures var d := Importer.Tallied(c, v, born);
      && d.created == c.created + (if v == Create then 1 else 0) && d.updated == c.updated + (if v == Update then 1 else 0)
      && d.tombstoned == c.tombstoned + (if v == Update then 1 else 0) && d.skipped == c.skipped + (if v == Skip then 1 else 0)
      && d.refused == c.refused + (if v == Refuse then 1 else 0) && d.born == c.born + (if born then 1 else 0)
      && d.total == c.total && d.dedup == c.dedup && d.quarantined == c.quarantined && d.swept == c.swept
  {
  }

  lemma OneMore(st: Settings, nodes: map<nat, Row>, files: seq<Entry>)
    requires Healing.DistinctNames(files) && files != []
    ensures var n := |files| - 1;
      && Healing.DistinctNames(files[..n])
      && (forall v :: |Judged(st, nodes, files, v)| ==
            |Judged(st, nodes, files[..n], v)| + if VerdictIn(st, nodes, files[n]) == v then 1 else 0)
      && |HeldBackIn(st, nodes, files)| == |HeldBackIn(st, nodes, files[..n])| + if BornIn(st, nodes, files[n]) then 1 else 0
  {
    LastIsNew(files);
    hide *;
    forall v
      ensures |Judged(st, nodes, files, v)| ==
        |Judged(st, nodes, files[..|files| - 1], v)| + if VerdictIn(st, nodes, files[|files| - 1]) == v then 1 else 0
    {
      OneMoreJudged(st, nodes, files, v);
    }
    OneMoreHeld(st, nodes, files);
  }

  lemma LastIsNew(files: seq<Entry>)
    requires Healing.DistinctNames(files) && files != []
    ensures var n := |files| - 1;
      Healing.DistinctNames(files[..n]) && files[n] !in files[..n] && forall x :: x in files <==> x in files[..n] || x == files[n]
  {
  }

  lemma OneMoreJudged(st: Settings, nodes: map<nat, Row>, files: seq<Entry>, v: Verdict)
    requires files != [] && files[|files| - 1] !in files[..|files| - 1]
    requires forall x :: x in files <==> x in files[..|files| - 1] || x == files[|files| - 1]
    ensures |Judged(st, nodes, files, v)| ==
      |Judged(st, nodes, files[..|files| - 1], v)| + if VerdictIn(st, nodes, files[|files| - 1]) == v then 1 else 0
  {
    hide VerdictIn;
    var e := files[|files| - 1];
    var a, b := Judged(st, nodes, files, v), Judged(st, nodes, files[..|files| - 1], v);
    assert a == if VerdictIn(st, nodes, e) == v then b + {e} else b;
  }

  lemma OneMoreHeld(st: Settings, nodes: map<nat, Row>, files: seq<Entry>)
    requires files != [] && files[|files| - 1] !in files[..|files| - 1]
    requires forall x :: x in files <==> x in files[..|files| - 1] || x == files[|files| - 1]
    ensures |HeldBackIn(st, nodes, files)| ==
      |HeldBackIn(st, nodes, files[..|files| - 1])| + if BornIn(st, nodes, files[|files| - 1]) then 1 else 0
  {
    hide BornIn;
    var e := files[|files| - 1];
    var a, b := HeldBackIn(st, nodes, files), HeldBackIn(st, nodes, files[..|files| - 1]);
    assert a == if BornIn(st, nodes, e) then b + {e} else b;
  }

  /** What an import reports: each file counted once, by how it is judged; the rows swept; and
      the files held out of the index. */
  lemma CountersAre(st: Settings, nodes: map<nat, Row>, disk: Disk)
    requires DistinctPaths(disk)
    ensures var files, c := MemoryFiles(disk), Importer.ExpectedStats(st, nodes, disk);
      && c.total == |files| && c.swept == |Gone(nodes, Names(files))|
      && c.created == |Judged(st, nodes, files, Create)| && c.updated == |Judged(st, nodes, files, Update)|
      && c.tombstoned == c.updated
      && c.skipped == |Judged(st, nodes, files, Skip)| && c.refused == |Judged(st, nodes, files, Refuse)|
      && c.created + c.updated + c.skipped + c.refused == c.total
      && c.born == |HeldBackIn(st, nodes, files)|
  {
    Healing.FileListIsOnePerName(disk);
    TallyCounts(st, nodes, MemoryFiles(disk), StartStats(disk));
    AllJudged(st, nodes, MemoryFiles(disk));
    hide MemoryFiles, Judged, HeldBackIn, Gone, Healing.DistinctNames, Importer.Tally;
  }

  lemma {:induction false} AllJudged(st: Settings, nodes: map<nat, Row>, files: seq<Entry>)
    requires Healing.DistinctNames(files)
    ensures |Judged(st, nodes, files, Create)| + |Judged(st, nodes, files, Update)| + |Judged(st, nodes, files, Skip)|
      + |Judged(st, nodes, files, Refuse)| == |files|
  {
    hide *;
    if files == [] {
      NothingCounted(st, nodes, Stats(0, 0, 0, 0, 0, 0, 0, 0, 0, 0));
    } else {
      OneMore(st, nodes, files);
      AllJudged(st, nodes, files[..|files| - 1]);
    }
  }

  // ----- what the follow-up records

  /** `i` is the first swept node that `x` descends from. */
  ghost predicate FirstAbove(s: State, swept: seq<nat>, x: nat, i: nat) {
    i < |swept| && Descends(s, swept[i], x) && forall j | 0 <= j < i :: !Descends(s, swept[j], x)
  }

  /** The record names the first swept node above the row, and its file. */
  lemma {:induction false} CascadeNamesTheFile(s: State, swept: seq<nat>, now: int, x: nat, i: nat)
    requires i < |swept| && swept[i] in s.nodes && s.nodes[swept[i]].bridgePath.Some?
    requires x in s.nodes && !s.nodes[x].tombstoned && s.nodes[x].channel == AgentDerived && FirstAbove(s, swept, x, i)
    ensures var t := CascadeAll(s, swept, now);
      && x in t.nodes && t.nodes[x].tombstoned && t.nodes[x].tombstonedAt == Some(now)
      && t.nodes[x].revokeReason == Some(SweepCascade(swept[i], s.nodes[swept[i]].bridgePath.value))
  {
    var n := |swept| - 1;
    hide *;
    CascadeKeepsPaths(s, swept[..n], now);
    CascadeKillsDerivedDescendants(s, swept[..n], now, x);
    CascadeStep(s, swept, now, x);
    FirstInFront(s, swept, x, i);
    if i < n { CascadeNamesTheFile(s, swept[..n], now, x, i); }
  }

  lemma FirstInFront(s: State, swept: seq<nat>, x: nat, i: nat)
    requires FirstAbove(s, swept, x, i)
    ensures var n := |swept| - 1;
      && i <= n && swept[..n] == swept[..|swept| - 1]
      && (i < n ==> FirstAbove(s, swept[..n], x, i) && swept[..n][i] == swept[i])
      && (i == n ==> !DescendsFromAny(s, swept[..n], x) && Descends(s, swept[n], x))
  {
    hide Descends;
  }

  /** The last swept node of a cascade, for one row. */
  lemma CascadeStep(s: State, swept: seq<nat>, now: int, x: nat)
    requires swept != [] && x in s.nodes
    requires var before := CascadeAll(s, swept[..|swept| - 1], now); x in before.nodes && before.edges == s.edges
    ensures var n := |swept| - 1;
      var before, t := CascadeAll(s, swept[..n], now), CascadeAll(s, swept, now);
      && x in t.nodes
      && (before.nodes[x].tombstoned ==> t.nodes[x] == before.nodes[x])
      && (!before.nodes[x].tombstoned && before.nodes[x].channel == AgentDerived && Descends(s, swept[n], x)
            && swept[n] in s.nodes && s.nodes[swept[n]].bridgePath.Some? ==>
          && t.nodes[x].tombstoned && t.nodes[x].tombstonedAt == Some(now)
          && t.nodes[x].revokeReason == Some(SweepCascade(swept[n], s.nodes[swept[n]].bridgePath.value)))
  {
    var before := CascadeAll(s, swept[..|swept| - 1], now);
    assert Descends(before, swept[|swept| - 1], x) <==> Descends(s, swept[|swept| - 1], x);
    hide Descends;
  }

  /** So does the mark of staleness: on the swept node itself the file, on what depends on it
      the node. */
  lemma {:induction false} StaleNamesTheSource(s: State, swept: seq<nat>, now: int, x: nat, i: nat)
    requires i < |swept| && swept[i] in s.nodes && s.nodes[swept[i]].bridgePath.Some?
    requires x in s.nodes && !s.nodes[x].stale && FirstAbove(s, swept, x, i)
    ensures var t := StaleAll(s, swept, now);
      && x in t.nodes && t.nodes[x].stale && t.nodes[x].staleAt == Some(now)
      && t.nodes[x].staleReason ==
        Some(if x == swept[i] then SweepCascade(swept[i], s.nodes[swept[i]].bridgePath.value) else CascadeFrom(swept[i]))
  {
    var n := |swept| - 1;
    var before := StaleAll(s, swept[..n], now);
    StaleKeepsPaths(s, swept[..n], now);
    StalenessKillsNothing(s, swept[..n], now, x);
    if i < n {
      assert FirstAbove(s, swept[..n], x, i);
      StaleNamesTheSource(s, swept[..n], now, x, i);
    } else {
      assert !DescendsFromAny(s, swept[..n], x);
    }
    assert Descends(before, swept[n], x) <==> Descends(s, swept[n], x);
  }

  // ----- which rows the sweep and the guard look at

  /** The reference begins with `prefix`, in whatever case. */
  predicate Begins(ref: Option<string>, prefix: string) {
    ref.Some? && |prefix| <= |ref.value| && Spells(ref.value[..|prefix|], prefix)
  }

  lemma RefersIs(ref: Option<string>, prefix: string)
    requires IsLower(prefix)
    ensures RefersTo(ref, prefix) <==> Begins(ref, prefix)
  {
    if ref.Some? && |prefix| <= |ref.value| {
      var low := Lower(ref.value);
      assert low[0..|prefix|] == Lower(ref.value[..|prefix|]);
      LowerIsSpells(ref.value[..|prefix|], prefix);
    }
  }

  /** The sweep takes the live file-backed memories whose file is not there; the guard
      against an empty directory looks at all live memories. */
  lemma SweptAre(nodes: map<nat, Row>, present: set<string>, id: nat)
    ensures id in Gone(nodes, present) <==>
      && id in nodes && !nodes[id].tombstoned && Begins(nodes[id].sourceRef, "memory:")
      && !Begins(nodes[id].sourceRef, "memory:literal:")
      && nodes[id].bridgePath.Some? && nodes[id].bridgePath.value !in present
    ensures HasLiveMemory(nodes) <==> exists x :: x in nodes && !nodes[x].tombstoned && Begins(nodes[x].sourceRef, "memory:")
  {
    assert IsLower("memory:") && IsLower("memory:literal:");
    forall ref ensures RefersTo(ref, "memory:") <==> Begins(ref, "memory:") { RefersIs(ref, "memory:"); }
    if id in nodes { RefersIs(nodes[id].sourceRef, "memory:literal:"); }
    hide RefersTo, Begins;
    if HasLiveMemory(nodes) {
      var x :| x in nodes && IsLiveMemory(nodes[x]);
      assert Begins(nodes[x].sourceRef, "memory:");
    }
    if x :| x in nodes && !nodes[x].tombstoned && Begins(nodes[x].sourceRef, "memory:") {
      assert IsLiveMemory(nodes[x]);
    }
  }

  // ----- what a death records

  /** A row an import of the files kills is superseded by a changed file or has lost its file,
      and says which. */
  lemma DeathsSayWhy(st: Settings, s: State, files: seq<Entry>, now: int, id: nat)
    requires Counted(s) && Healing.DistinctNames(files)
    requires id in s.nodes && !s.nodes[id].tombstoned && id in Imported(st, s, files, now).nodes
    requires Imported(st, s, files, now).nodes[id].tombstoned
    ensures var r := Imported(st, s, files, now).nodes[id];
      && r.tombstonedAt == Some(now) && s.nodes[id].bridgePath.Some?
      && (s.nodes[id].bridgePath.value in Names(files) ==> r.revokeReason == Some(Reason.Text("superseded by bridge reimport")))
      && (s.nodes[id].bridgePath.value !in Names(files) ==> r.revokeReason == Some(Reason.Text("source file removed (bridge reconcile)")))
  {
    ImportRowFate(st, s, files, now, id);
    if SupersededBy(st, s.nodes, files, id) { SupersededIsLive(st, s, files, id); }
    hide Imported, SupersededBy, MintedBy;
  }

  /** And one an import of the index kills has another content now or no line. */
  lemma LineDeathsSayWhy(s: State, w: Literals.Wanted, hash: Note -> int, now: int, id: nat)
    requires Counted(s) && Literals.Proper(w) && id in s.nodes && !s.nodes[id].tombstoned
    requires id in Literals.Mirrored(s, w, hash, now).nodes && Literals.Mirrored(s, w, hash, now).nodes[id].tombstoned
    ensures var r := Literals.Mirrored(s, w, hash, now).nodes[id];
      && r.tombstonedAt == Some(now) && s.nodes[id].sourceRef.Some?
      && r.revokeReason == Some(Reason.Text(if s.nodes[id].sourceRef.value in w.notes then "superseded by bridge reimport"
                                            else "literal removed from index"))
  {
    Literals.LiteralRowFate(s, w, hash, now, id);
    hide Literals.Mirrored, Literals.LiveId, Literals.IsLiteral;
    Literals.LiteralHasRef(s.nodes[id]);
  }
}
