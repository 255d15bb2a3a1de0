/** How the importer files one memory: which index metadata it is stamped with, and
    whether its node is created, replaced, kept or refused
    (memsom/bridge/bridge_import.py). */
module Filing {
  import opened Base
  import opened Frontmatter
  import opened Dag
  import opened MemoryTree

  /** A curated line of MEMORY.md: title, hook (absent when stripped to nothing), section. */
  datatype IndexLine = IndexLine(title: string, hook: Option<string>, section: string)

  /** What an import run reads besides the files: the curated index, the anti-creep
      parameter, and the content hash, of which nothing is assumed. */
  datatype Settings = Settings(primary: map<string, IndexLine>, bornRule: bool, hash: Note -> int)

  function Text(o: Option<string>): string {
    if o.Some? then o.value else ""
  }

  // ----- channel

  function PrefixBefore(s: string, c: char): string {
    if s == "" || s[0] == c then "" else [s[0]] + PrefixBefore(s[1..], c)
  }

  /** The declared type, else the file name up to its first underscore. */
  function MemoryType(stem: string, fm: Fields): string {
    if Text(Get(fm, "type")) != "" then fm["type"] else PrefixBefore(stem, '_')
  }

  function ChannelFor(stem: string, fm: Fields): Channel {
    if MemoryType(stem, fm) in {"user", "personal", "feedback"} then Endorsed else User
  }

  // ----- index metadata

  const FEEDBACK_PREFIX := "feedback_"
  const CLUSTER_PREFIX := "feedback_cluster_"
  const NEEDS_CLUSTER := "needs_cluster"

  predicate Withdrawn(fm: Fields) {
    || Lower(Text(Get(fm, "section"))) == "none"
    || Lower(Text(Get(fm, "index"))) in {"false", "no", "0"}
  }

  /** One metadata key as _stored_index_meta hands it back: only when not empty. */
  function Stored(prev: Fields, key: string): Option<string> {
    if Truthy(Get(prev, key)) then Get(prev, key) else None
  }

  /** born_unindexed: a feedback file that must stay out of the index. */
  predicate BornUnindexed(st: Settings, stem: string, fm: Fields, section: Option<string>, curated: bool,
                          known: bool, prev: Fields) {
    && st.bornRule
    && StartsWith(stem, FEEDBACK_PREFIX) && !StartsWith(stem, CLUSTER_PREFIX)
    && !curated && Text(Get(fm, "why_own_line")) == ""
    && Lower(Text(section)) == "feedback"
    && (!known || Stored(prev, "index_pending") == Some(NEEDS_CLUSTER))
  }

  datatype Meta = Meta(section: Option<string>, title: Option<string>, hook: Option<string>, pending: Option<string>)

  /** The fallback chain: curated index, then the file's own frontmatter, then what
      is stamped on the live node. The chain runs only when the curated entry is
      missing something. */
  function Chained(st: Settings, rel: string, fm: Fields, prev: Fields): Meta {
    if rel in st.primary && st.primary[rel].hook.Some? then
      var line := st.primary[rel];
      Meta(Some(line.section), Some(line.title), line.hook, None)
    else
      var section := if rel in st.primary then Some(st.primary[rel].section) else None;
      var title := if rel in st.primary then Some(st.primary[rel].title) else None;
      Meta(Or(Or(section, Get(fm, "section")), Stored(prev, "section")),
           Or(Or(title, Get(fm, "index_title")), Stored(prev, "index_title")),
           Or(Get(fm, "index_hook"), Stored(prev, "index_hook")),
           None)
  }

  /** The chain, then explicit withdrawal. */
  function Offered(st: Settings, name: string, fm: Fields, prev: Fields): Meta {
    var chained := Chained(st, name, fm, prev);
    if Withdrawn(fm) then chained.(section := None) else chained
  }

  /** The anti-creep rule holds the file back. */
  predicate HeldBack(st: Settings, name: string, fm: Fields, prev: Fields, known: bool) {
    BornUnindexed(st, Stem(name), fm, Offered(st, name, fm, prev).section, name in st.primary, known, prev)
  }

  /** The chain, then explicit withdrawal, then the anti-creep rule. */
  function Resolved(st: Settings, name: string, fm: Fields, prev: Fields, known: bool): Meta {
    var m := Offered(st, name, fm, prev);
    if HeldBack(st, name, fm, prev, known) then m.(section := None, pending := Some(NEEDS_CLUSTER)) else m
  }

  function Subdir(dir: seq<string>): Option<string> {
    if dir == [] then None
    else if |dir| == 1 then Some(dir[0])
    else Some(Joined(dir[..|dir| - 1]) + dir[|dir| - 1])
  }

  function StampsFor(m: Meta, dir: seq<string>): Stamps {
    [("section", m.section), ("index_title", m.title), ("index_hook", m.hook),
     ("memory_subdir", Subdir(dir)), ("index_pending", m.pending)]
  }

  /** The fields a live node is read back with. */
  function PrevOf(existing: Option<Row>): Fields {
    if existing.Some? then TopLevel(existing.value.content.lines) else map[]
  }

  function MetaFor(st: Settings, e: Entry, existing: Option<Row>): Meta {
    Resolved(st, e.path.name, Flat(e.file.raw.lines), PrevOf(existing), existing.Some?)
  }

  /** The note the importer would store for a file, given its live node. */
  function StampedFor(st: Settings, e: Entry, existing: Option<Row>): Note {
    Stamp(e.file.raw, StampsFor(MetaFor(st, e, existing), e.path.dir))
  }

  datatype Verdict = Refuse | Skip | Create | Update

  /** A redacted node is never revived; an unchanged file is left alone. */
  function VerdictFor(st: Settings, e: Entry, existing: Option<Row>): Verdict {
    if existing.None? then Create
    else if existing.value.redacted then Refuse
    else if existing.value.contentHash == Some(st.hash(StampedFor(st, e, existing))) then Skip
    else Update
  }

  /** The row minted for a file; a successor inherits the forgetting-layer columns. */
  function MintedRow(st: Settings, e: Entry, existing: Option<Row>, now: int): Row {
    var note := StampedFor(st, e, existing);
    var stem := Stem(e.path.name);
    var channel := ChannelFor(stem, Flat(e.file.raw.lines));
    NewRow(note, channel, Rank(channel), Some("memory:" + stem), now).(
      bridgePath := Some(e.path.name),
      bridgeMtime := Some((e.file.mtime, e.file.size)),
      contentHash := Some(st.hash(note)),
      forget := if existing.Some? then existing.value.forget else FRESH_FORGET)
  }

  // ----- the chain is a fixpoint

  /** A node held back by the anti-creep rule has no section of its own. */
  ghost predicate HeldMeansUnsectioned(prev: Fields) {
    Stored(prev, "index_pending") == Some(NEEDS_CLUSTER) ==> Stored(prev, "section").None?
  }

  ghost predicate ReadsBack(prev: Fields, m: Meta) {
    && Get(prev, "section") == m.section && Get(prev, "index_title") == m.title
    && Get(prev, "index_hook") == m.hook && Get(prev, "index_pending") == m.pending
  }

  lemma StampsDistinct(m: Meta, dir: seq<string>)
    ensures DistinctKeys(StampsFor(m, dir))
  {
    assert "section"[0] == 's' && "index_title"[0] == 'i' && "memory_subdir"[0] == 'm';
    assert |"index_title"| == 11 && |"index_hook"| == 10 && |"index_pending"| == 13;
  }

  /** What is stamped is what a later run reads back. */
  lemma StampedReadsBack(n: Note, m: Meta, dir: seq<string>)
    requires !n.hadFm ==> n.lines == []
    ensures ReadsBack(TopLevel(Stamp(n, StampsFor(m, dir)).lines), m)
  {
    var kv := StampsFor(m, dir);
    StampsDistinct(m, dir);
    assert kv[0] == ("section", m.section) && kv[1] == ("index_title", m.title);
    assert kv[2] == ("index_hook", m.hook) && kv[4] == ("index_pending", m.pending);
    StampReadBack(n, kv, "section");
    StampReadBack(n, kv, "index_title");
    StampReadBack(n, kv, "index_hook");
    StampReadBack(n, kv, "index_pending");
  }

  /** Filing a file a second time, with the metadata its own stamp left behind, gives the
      same metadata if and only if the rule did not hold the file back, or the file itself
      asks for the section: what is held back on the strength of a stored section loses
      that section, and so is not held back the second time. */
  lemma FilingIsStableIff(st: Settings, name: string, fm: Fields, prev: Fields, known: bool, after: Fields)
    requires known || prev == map[]
    requires ReadsBack(after, Resolved(st, name, fm, prev, known))
    ensures Resolved(st, name, fm, after, true) == Resolved(st, name, fm, prev, known) <==>
      (HeldBack(st, name, fm, prev, known) ==> Truthy(Get(fm, "section")))
    ensures HeldMeansUnsectioned(after)
  {
  }

  /** Whatever was stored before, filing is stable from the second time on. */
  lemma StableFromTheSecondFiling(st: Settings, name: string, fm: Fields, prev: Fields, known: bool, once: Fields, twice: Fields)
    requires known || prev == map[]
    requires ReadsBack(once, Resolved(st, name, fm, prev, known))
    requires ReadsBack(twice, Resolved(st, name, fm, once, true))
    ensures Resolved(st, name, fm, twice, true) == Resolved(st, name, fm, once, true)
  {
    hide Resolved;
    FilingIsStableIff(st, name, fm, prev, known, once);
    FilingIsAFixpoint(st, name, fm, once, true, twice);
  }

  /** That is met when the stored node is not both held back and sectioned, which is so of
      every node an import stores: fallback, withdrawal and holding are then stable after
      one application. */
  lemma FilingIsAFixpoint(st: Settings, name: string, fm: Fields, prev: Fields, known: bool, after: Fields)
    requires HeldMeansUnsectioned(prev) && (known || prev == map[])
    requires ReadsBack(after, Resolved(st, name, fm, prev, known))
    ensures Resolved(st, name, fm, after, true) == Resolved(st, name, fm, prev, known)
    ensures HeldMeansUnsectioned(after)
  {
    FilingIsStableIff(st, name, fm, prev, known, after);
  }

  /** A file that is not stable: the stored node is held back and carries the Feedback
      section, which the file does not ask for. */
  lemma HeldWithSectionIsNoFixpoint(st: Settings, prev: Fields, after: Fields)
    requires st.bornRule && "feedback_x.md" !in st.primary
    requires Get(prev, "section") == Some("Feedback") && Get(prev, "index_pending") == Some(NEEDS_CLUSTER)
    requires ReadsBack(after, Resolved(st, "feedback_x.md", map[], prev, true))
    ensures Resolved(st, "feedback_x.md", map[], after, true) != Resolved(st, "feedback_x.md", map[], prev, true)
  {
    assert Stem("feedback_x.md") == "feedback_x";
    assert StartsWith("feedback_x", FEEDBACK_PREFIX);
    assert "feedback_x"[9] != CLUSTER_PREFIX[9];
    assert !StartsWith("feedback_x", CLUSTER_PREFIX);
    assert Lower("Feedback") == "feedback";
  }
}
