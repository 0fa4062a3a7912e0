/**
 * The watch ledger: a `squirrel` root holding one `watches` bucket per calendar
 * date, each bucket holding the `watch` entries recorded on that date. This module
 * gives `build_watch_file`, the bucket lookup of `get_watches_entry`, the count
 * of `get_watches_last_count` and the append-with-de-duplication of
 * `add_watch_entry` / `make_watch_entry`.
 */
module WatchLedger {
  import opened Wrappers
  import opened XmlTree
  import opened Decimal
  import opened Dates

  const Disclaimer: string := "This is a file generated by squirrel. Modify it at your own risk."

  /** The tree `build_watch_file` writes: a bare `squirrel` root holding the disclaimer comment. */
  function InitialTree(): Tree {
    Element("squirrel", map[], None, [Comment(Disclaimer)])
  }

  predicate IsBucket(n: Node) {
    HasTag(n, "watches")
  }

  /** A bucket whose `date` attribute is exactly `key`; a bucket without `date` is never one. */
  predicate IsBucketFor(n: Node, key: string) {
    IsBucket(n) && "date" in n.attrib && n.attrib["date"] == key
  }

  /** `root.findall('watches')`. */
  function Buckets(root: Tree): seq<Node> {
    FindAll(root.children, "watches")
  }

  /** A new ledger holds the disclaimer and no bucket. */
  lemma InitialTreeHasNoBuckets()
    ensures InitialTree().children == [Comment(Disclaimer)]
    ensures Buckets(InitialTree()) == []
  {
  }

  /** Position of the first bucket keyed `key`, in document order. */
  function FirstBucket(c: seq<Node>, key: string): (r: Option<nat>)
    ensures r.Some? ==> r.value < |c| && IsBucketFor(c[r.value], key)
    ensures r.Some? ==> forall j :: 0 <= j < r.value ==> !IsBucketFor(c[j], key)
    ensures r.None? ==> forall j :: 0 <= j < |c| ==> !IsBucketFor(c[j], key)
  {
    if c == [] then None
    else if IsBucketFor(c[0], key) then Some(0)
    else match FirstBucket(c[1..], key)
      case None => None
      case Some(i) => Some(i + 1)
  }

  /** The first bucket keyed `key` is at `i` when it is keyed so and none before it is. */
  lemma FirstBucketAt(c: seq<Node>, key: string, i: nat)
    requires i < |c| && IsBucketFor(c[i], key)
    requires forall j :: 0 <= j < i ==> !IsBucketFor(c[j], key)
    ensures FirstBucket(c, key) == Some(i)
  {
  }

  /** What `get_watches_last_count` returns: the int 0 for an empty bucket, else the last child's text. */
  datatype Count = NoEntries | LastText(text: Option<string>)

  function LastCount(bucket: Node): Count {
    var c := Children(bucket);
    if |c| == 0 then NoEntries else LastText(Text(c[|c| - 1]))
  }

  /** One tuple of `get_watches_data`: a bucket's `date`, its `prev_count` and its last count. */
  datatype Summary = Summary(date: string, prevCount: string, last: Count)

  /** A bucket `get_watches_data` can summarise: one with both `date` and `prev_count`. */
  predicate HasSummary(bucket: Node) {
    bucket.Element? && "date" in bucket.attrib && "prev_count" in bucket.attrib
  }

  function SummaryOf(bucket: Node): Summary
    requires HasSummary(bucket)
  {
    Summary(bucket.attrib["date"], bucket.attrib["prev_count"], LastCount(bucket))
  }

  /** A `datetime` as the ledger uses it: its calendar date and its `str` (kept opaque). */
  datatype Timestamp = Timestamp(date: CalendarDate, text: string)

  /** `make_watch_entry(parent, stamp, value)`: appends `<watch datetime=stamp>value</watch>`. */
  function MakeWatchEntry(parent: Tree, stamp: string, value: string): (r: Tree)
    ensures r.tag == parent.tag && r.attrib == parent.attrib && r.text == parent.text
    ensures |r.children| == |parent.children| + 1 && r.children[..|parent.children|] == parent.children
    ensures LastCount(r) == LastText(Some(value))
    ensures HasTag(r.children[|parent.children|], "watch")
    ensures r.children[|parent.children|].attrib == map["datetime" := stamp]
  {
    var r := AppendChild(parent, Element("watch", map["datetime" := stamp], Some(value), []));
    assert r.children[..|parent.children|] == parent.children;
    r
  }

  /**
   * The `prev_count` of a new bucket: `root[-1][-1].text`, that is the text of the
   * last child of the root's last child of any kind, or "0" when the root or that
   * child has no children (the `IndexError` fallback). `None` is a None text.
   */
  function PrevCount(root: Tree): Option<string> {
    if |root.children| == 0 then Some("0")
    else
      var last := Children(root.children[|root.children| - 1]);
      if |last| == 0 then Some("0") else Text(last[|last| - 1])
  }

  /**
   * The new bucket's `prev_count` is what `get_watches_last_count` reports for the
   * root's last child, the int 0 becoming the text "0"; a trailing comment gives "0".
   */
  lemma PrevCountIsLastCount(root: Tree)
    ensures |root.children| == 0 ==> PrevCount(root) == Some("0")
    ensures |root.children| > 0 ==>
      PrevCount(root) == match LastCount(root.children[|root.children| - 1])
                         case NoEntries => Some("0")
                         case LastText(t) => t
    ensures |root.children| > 0 && root.children[|root.children| - 1].Comment? ==> PrevCount(root) == Some("0")
  {
  }

  /** `ET.SubElement(root, 'watches', prev_count=..., date=...)` before any entry. */
  function NewBucket(date: CalendarDate, prevCount: string): (r: Tree)
    ensures IsBucketFor(r, Format(date)) && r.attrib == map["prev_count" := prevCount, "date" := Format(date)] && r.children == []
  {
    Element("watches", map["prev_count" := prevCount, "date" := Format(date)], None, [])
  }

  /**
   * How one call of `add_watch_entry` on a loaded ledger ends: nothing appended (it
   * returns False), the tree to write back (it returns True), a write that fails on
   * a None `prev_count`, or a `TypeError` raised before anything is written.
   */
  datatype AddOutcome = Unchanged | Recorded(root: Tree) | Unwritable | Raised

  /** The branch for an existing bucket at position `i`: skip a repeated count, else append. */
  function RecordInBucket(root: Tree, i: nat, total: int, at: Timestamp): (r: AddOutcome)
    requires i < |root.children| && IsBucket(root.children[i])
    ensures r.Unchanged? || r.Recorded?
  {
    var bucket: Tree := root.children[i];
    if |bucket.children| > 0 && Text(bucket.children[|bucket.children| - 1]) == Some(IntToString(total)) then
      Unchanged
    else
      Recorded(root.(children := root.children[i := MakeWatchEntry(bucket, at.text, IntToString(total))]))
  }

  /**
   * `add_watch_entry(total, dt)` with the new-bucket branch doing what it evidently
   * means to: the entry goes into the bucket just created. (The source passes the
   * lookup result, which is None there, to `make_watch_entry`; see RecordAsWritten.)
   */
  function Record(root: Tree, total: int, at: Timestamp): (r: AddOutcome)
    ensures r != Raised
  {
    match FirstBucket(root.children, Format(at.date))
    case Some(i) => RecordInBucket(root, i, total, at)
    case None =>
      match PrevCount(root)
      case None => Unwritable
      case Some(p) => Recorded(AppendChild(root, MakeWatchEntry(NewBucket(at.date, p), at.text, IntToString(total))))
  }

  /**
   * `add_watch_entry(total, dt)` as written: when no bucket matches, it creates the
   * bucket and then calls `make_watch_entry(None, ...)`, which raises a `TypeError`
   * before the tree is written.
   */
  function RecordAsWritten(root: Tree, total: int, at: Timestamp): (r: AddOutcome)
    ensures r != Unwritable
  {
    match FirstBucket(root.children, Format(at.date))
    case Some(i) => RecordInBucket(root, i, total, at)
    case None => Raised
  }

  /** As written, a ledger without a bucket for the date never records it; a new ledger never records anything. */
  lemma AsWrittenNeverOpensBucket(root: Tree, total: int, at: Timestamp)
    requires FirstBucket(root.children, Format(at.date)).None?
    ensures RecordAsWritten(root, total, at) == Raised
    ensures RecordAsWritten(InitialTree(), total, at) == Raised
  {
  }

  /** Where a bucket for the date exists, the code as written and the corrected one agree. */
  lemma AsWrittenAgreesOnExistingBucket(root: Tree, total: int, at: Timestamp)
    requires FirstBucket(root.children, Format(at.date)).Some?
    ensures RecordAsWritten(root, total, at) == Record(root, total, at)
  {
  }

  /** An existing bucket gets nothing appended exactly when its last count is already `str(total)`. */
  lemma UnchangedIffSameCount(root: Tree, total: int, at: Timestamp)
    requires FirstBucket(root.children, Format(at.date)).Some?
    ensures var i := FirstBucket(root.children, Format(at.date)).value;
      Record(root, total, at) == Unchanged <==> LastCount(root.children[i]) == LastText(Some(IntToString(total)))
  {
  }

  /**
   * After a call, the date's bucket reports `str(total)` as its last count, whether the
   * count was appended or was already there; a write can fail only for a new bucket
   * whose `prev_count` has no text.
   */
  lemma RecordedLastCount(root: Tree, total: int, at: Timestamp)
    ensures var key := Format(at.date);
      match Record(root, total, at)
      case Unchanged =>
        FirstBucket(root.children, key).Some?
        && LastCount(root.children[FirstBucket(root.children, key).value]) == LastText(Some(IntToString(total)))
      case Recorded(t) =>
        FirstBucket(t.children, key).Some?
        && LastCount(t.children[FirstBucket(t.children, key).value]) == LastText(Some(IntToString(total)))
      case Unwritable => FirstBucket(root.children, key).None? && PrevCount(root).None?
      case Raised => false
  {
    var key := Format(at.date);
    var c := root.children;
    match FirstBucket(c, key)
    case Some(i) =>
      if Record(root, total, at).Recorded? {
        var t := Record(root, total, at).root;
        assert forall j :: 0 <= j < i ==> t.children[j] == c[j];
        FirstBucketAt(t.children, key, i);
      }
    case None =>
      if PrevCount(root).Some? {
        var t := Record(root, total, at).root;
        assert forall j :: 0 <= j < |c| ==> t.children[j] == c[j];
        FirstBucketAt(t.children, key, |c|);
      }
  }

  /**
   * With a bucket for the date whose last count differs, exactly one `watch` entry
   * stamped `str(dt)` with text `str(total)` becomes that bucket's last child;
   * every other child of the root, and every earlier entry, stays as it was.
   */
  lemma RecordExistingBucket(root: Tree, total: int, at: Timestamp)
    requires FirstBucket(root.children, Format(at.date)).Some?
    requires Record(root, total, at) != Unchanged
    ensures Record(root, total, at).Recorded?
    ensures var t := Record(root, total, at).root;
      var i := FirstBucket(root.children, Format(at.date)).value;
      var before := root.children[i].children;
      && t.tag == root.tag && t.attrib == root.attrib && t.text == root.text
      && |t.children| == |root.children|
      && (forall k :: 0 <= k < |root.children| && k != i ==> t.children[k] == root.children[k])
      && t.children[i].attrib == root.children[i].attrib
      && |t.children[i].children| == |before| + 1
      && t.children[i].children[..|before|] == before
      && t.children[i].children[|before|] == Element("watch", map["datetime" := at.text], Some(IntToString(total)), [])
  {
  }

  /** Recording the same total twice on one date leaves one entry: the second call changes nothing. */
  lemma RecordTwiceSameTotal(root: Tree, total: int, at: Timestamp, again: Timestamp)
    requires again.date == at.date && Record(root, total, at).Recorded?
    ensures Record(Record(root, total, at).root, total, again) == Unchanged
  {
    RecordedLastCount(root, total, at);
  }

  /**
   * With no bucket for the date, exactly one bucket is appended at the end of the root,
   * keyed by the date, with the computed `prev_count` and the one new entry; every
   * existing child stays as it was.
   */
  lemma RecordNewDate(root: Tree, total: int, at: Timestamp)
    requires FirstBucket(root.children, Format(at.date)).None? && PrevCount(root).Some?
    ensures Record(root, total, at).Recorded?
    ensures var t := Record(root, total, at).root;
      var n := |root.children|;
      && |t.children| == n + 1 && t.children[..n] == root.children
      && IsBucketFor(t.children[n], Format(at.date))
      && t.children[n].attrib == map["prev_count" := PrevCount(root).value, "date" := Format(at.date)]
      && t.children[n].children == [Element("watch", map["datetime" := at.text], Some(IntToString(total)), [])]
      && LastCount(t.children[n]) == LastText(Some(IntToString(total)))
  {
    var t := Record(root, total, at).root;
    assert t.children[..|root.children|] == root.children;
  }

  /** The bucket opened for a new date comes last among the buckets `get_watches_data` reports. */
  lemma RecordNewDateBuckets(root: Tree, total: int, at: Timestamp)
    requires FirstBucket(root.children, Format(at.date)).None? && PrevCount(root).Some?
    ensures Record(root, total, at).Recorded?
    ensures var t := Record(root, total, at).root;
      |t.children| == |root.children| + 1 && Buckets(t) == Buckets(root) + [t.children[|root.children|]]
  {
    var t := Record(root, total, at).root;
    var b := t.children[|root.children|];
    assert t.children == root.children + [b];
    FindAllSnoc(root.children, b, "watches");
  }

  // ---- Invariants of the ledger ------------------------------------------------

  /** Consecutive entries of a bucket never carry the same text. */
  predicate NeighboursDiffer(s: seq<Node>) {
    forall j :: 0 < j < |s| ==> Text(s[j - 1]) != Text(s[j])
  }

  /** Every bucket of the ledger keeps consecutive entries distinct. */
  predicate NoRepeats(root: Tree) {
    forall k :: 0 <= k < |root.children| && IsBucket(root.children[k]) ==> NeighboursDiffer(root.children[k].children)
  }

  /** A bucket that has a `date` attribute. */
  predicate IsDated(n: Node) {
    IsBucket(n) && "date" in n.attrib
  }

  /** No two buckets of the ledger carry the same date. */
  predicate UniqueDates(root: Tree) {
    forall j, k :: 0 <= j < k < |root.children| && IsDated(root.children[j]) && IsDated(root.children[k]) ==>
      root.children[j].attrib["date"] != root.children[k].attrib["date"]
  }

  lemma InitialTreeInvariants()
    ensures NoRepeats(InitialTree()) && UniqueDates(InitialTree())
  {
  }

  /** Recording keeps consecutive entries of every bucket distinct. */
  lemma RecordKeepsNoRepeats(root: Tree, total: int, at: Timestamp)
    requires NoRepeats(root) && Record(root, total, at).Recorded?
    ensures NoRepeats(Record(root, total, at).root)
  {
    var t := Record(root, total, at).root;
    var c := root.children;
    match FirstBucket(c, Format(at.date))
    case Some(i) =>
      var b := c[i].children;
      var nb := t.children[i].children;
      assert nb == b + [nb[|b|]];
      forall j | 0 < j < |nb| ensures Text(nb[j - 1]) != Text(nb[j]) {
        if j < |b| {
          assert Text(b[j - 1]) != Text(b[j]);
        }
      }
      assert NeighboursDiffer(nb);
      forall k | 0 <= k < |t.children| && IsBucket(t.children[k]) ensures NeighboursDiffer(t.children[k].children) {
        if k != i {
          assert t.children[k] == c[k];
        }
      }
    case None =>
      forall k | 0 <= k < |t.children| && IsBucket(t.children[k]) ensures NeighboursDiffer(t.children[k].children) {
        if k < |c| {
          assert t.children[k] == c[k];
        }
      }
  }

  /** Recording never creates a second bucket for a date. */
  lemma RecordKeepsUniqueDates(root: Tree, total: int, at: Timestamp)
    requires UniqueDates(root) && Record(root, total, at).Recorded?
    ensures UniqueDates(Record(root, total, at).root)
  {
    var t := Record(root, total, at).root;
    var c := root.children;
    match FirstBucket(c, Format(at.date))
    case Some(i) =>
      var bucket: Tree := c[i];
      assert t.children == c[i := MakeWatchEntry(bucket, at.text, IntToString(total))];
      assert forall k :: 0 <= k < |c| ==> (IsDated(t.children[k]) <==> IsDated(c[k]));
      assert forall k :: 0 <= k < |c| && IsDated(c[k]) ==> t.children[k].attrib["date"] == c[k].attrib["date"];
    case None =>
      assert t.children[..|c|] == c && |t.children| == |c| + 1;
      assert IsBucketFor(t.children[|c|], Format(at.date));
  }

  // ---- Growth -------------------------------------------------------------------

  /** `b` is `a` with zero or more children appended and nothing else changed. */
  predicate Extends(a: Node, b: Node) {
    a == b
    || (a.Element? && b.Element? && a.tag == b.tag && a.attrib == b.attrib && a.text == b.text
        && |a.children| <= |b.children| && b.children[..|a.children|] == a.children)
  }

  /** Every child of `a` is still in place in `b`, possibly extended, and `b` may have more. */
  predicate Grows(a: Tree, b: Tree) {
    && a.tag == b.tag && a.attrib == b.attrib && a.text == b.text
    && |a.children| <= |b.children|
    && forall k :: 0 <= k < |a.children| ==> Extends(a.children[k], b.children[k])
  }

  function Entries(n: Node): nat {
    if IsBucket(n) then |n.children| else 0
  }

  /** The number of entries held by the buckets among `c`. */
  function EntryCount(c: seq<Node>): nat {
    if c == [] then 0 else EntryCount(c[..|c| - 1]) + Entries(c[|c| - 1])
  }

  lemma {:induction false} EntryCountReplace(c: seq<Node>, i: nat, x: Node)
    requires i < |c|
    ensures EntryCount(c[i := x]) + Entries(c[i]) == EntryCount(c) + Entries(x)
  {
    var d := c[i := x];
    if i < |c| - 1 {
      assert d[..|d| - 1] == c[..|c| - 1][i := x];
      EntryCountReplace(c[..|c| - 1], i, x);
    } else {
      assert d[..|d| - 1] == c[..|c| - 1];
    }
  }

  lemma EntryCountAppend(c: seq<Node>, x: Node)
    ensures EntryCount(c + [x]) == EntryCount(c) + Entries(x)
  {
    assert (c + [x])[..|c|] == c;
  }

  /** A recorded call only appends: buckets and entries are never removed or rewritten, and exactly one entry is added. */
  lemma RecordOnlyAppends(root: Tree, total: int, at: Timestamp)
    requires Record(root, total, at).Recorded?
    ensures Grows(root, Record(root, total, at).root)
    ensures EntryCount(Record(root, total, at).root.children) == EntryCount(root.children) + 1
  {
    var t := Record(root, total, at).root;
    var c := root.children;
    match FirstBucket(c, Format(at.date))
    case Some(i) =>
      assert t.children == c[i := t.children[i]];
      EntryCountReplace(c, i, t.children[i]);
      assert Extends(c[i], t.children[i]);
    case None =>
      assert t.children == c + [t.children[|c|]];
      EntryCountAppend(c, t.children[|c|]);
  }

  // ---- Sequences of observations ------------------------------------------------

  /** One call of `add_watch_entry(total, dt)`. */
  datatype Observation = Observation(total: int, at: Timestamp)

  /** The ledger after a series of calls, each one writing back before the next loads; None once a write fails. */
  function RecordAll(root: Tree, obs: seq<Observation>): Option<Tree>
    decreases |obs|
  {
    if obs == [] then Some(root)
    else match Record(root, obs[0].total, obs[0].at)
      case Unchanged => RecordAll(root, obs[1..])
      case Recorded(t) => RecordAll(t, obs[1..])
      case Unwritable => None
      case Raised => None
  }

  /** Every ledger reached from a new one keeps both invariants. */
  lemma {:induction false} RecordAllKeepsInvariants(root: Tree, obs: seq<Observation>)
    requires NoRepeats(root) && UniqueDates(root)
    requires RecordAll(root, obs).Some?
    ensures NoRepeats(RecordAll(root, obs).value) && UniqueDates(RecordAll(root, obs).value)
    decreases |obs|
  {
    if obs != [] {
      var o := Record(root, obs[0].total, obs[0].at);
      if o.Recorded? {
        RecordKeepsNoRepeats(root, obs[0].total, obs[0].at);
        RecordKeepsUniqueDates(root, obs[0].total, obs[0].at);
        RecordAllKeepsInvariants(o.root, obs[1..]);
      } else {
        RecordAllKeepsInvariants(root, obs[1..]);
      }
    }
  }

  function Watch(stamp: string, value: string): Node {
    Element("watch", map["datetime" := stamp], Some(value), [])
  }

  /**
   * Totals 0, 50, 50, 120 observed on one date in a new ledger give one bucket with
   * `prev_count` "0" and three entries: the repeated 50 is not recorded.
   */
  lemma ChangingTotalsOnOneDate(d: CalendarDate, s1: string, s2: string, s3: string, s4: string)
    ensures RecordAll(InitialTree(), [
        Observation(0, Timestamp(d, s1)), Observation(50, Timestamp(d, s2)),
        Observation(50, Timestamp(d, s3)), Observation(120, Timestamp(d, s4))])
      == Some(Element("squirrel", map[], None, [
           Comment(Disclaimer),
           Element("watches", map["prev_count" := "0", "date" := Format(d)], None,
             [Watch(s1, "0"), Watch(s2, "50"), Watch(s4, "120")])]))
  {
    ChangingTotalsSteps(d, s1, s2, s3, s4);
    ChangingTotalsTexts();
  }

  lemma ChangingTotalsSteps(d: CalendarDate, s1: string, s2: string, s3: string, s4: string)
    ensures RecordAll(InitialTree(), [
        Observation(0, Timestamp(d, s1)), Observation(50, Timestamp(d, s2)),
        Observation(50, Timestamp(d, s3)), Observation(120, Timestamp(d, s4))])
      == Some(SoleBucket(d, [Watch(s1, IntToString(0)), Watch(s2, IntToString(50)), Watch(s4, IntToString(120))]))
  {
    var w1, w2, w4 := Watch(s1, IntToString(0)), Watch(s2, IntToString(50)), Watch(s4, IntToString(120));
    ChangingTotalsFirstTwo(d, s1, s2);
    ChangingTotalsLastTwo(d, [w1, w2], s3, s4);
    assert [w1, w2] + [w4] == [w1, w2, w4];
    RecordAllFour(InitialTree(), Observation(0, Timestamp(d, s1)), Observation(50, Timestamp(d, s2)),
      Observation(50, Timestamp(d, s3)), Observation(120, Timestamp(d, s4)),
      SoleBucket(d, [w1]), SoleBucket(d, [w1, w2]), SoleBucket(d, [w1, w2, w4]));
  }

  lemma ChangingTotalsFirstTwo(d: CalendarDate, s1: string, s2: string)
    ensures Record(InitialTree(), 0, Timestamp(d, s1)) == Recorded(SoleBucket(d, [Watch(s1, IntToString(0))]))
    ensures Record(SoleBucket(d, [Watch(s1, IntToString(0))]), 50, Timestamp(d, s2))
      == Recorded(SoleBucket(d, [Watch(s1, IntToString(0)), Watch(s2, IntToString(50))]))
  {
    ChangingTotalsTexts();
    var w1 := Watch(s1, IntToString(0));
    OpenSoleBucket(d, s1, 0);
    AppendToSoleBucket(d, [w1], s2, 50);
    assert [w1] + [Watch(s2, IntToString(50))] == [w1, Watch(s2, IntToString(50))];
  }

  lemma ChangingTotalsLastTwo(d: CalendarDate, watches: seq<Node>, s3: string, s4: string)
    requires watches != [] && Text(watches[|watches| - 1]) == Some(IntToString(50))
    ensures Record(SoleBucket(d, watches), 50, Timestamp(d, s3)) == Unchanged
    ensures Record(SoleBucket(d, watches), 120, Timestamp(d, s4))
      == Recorded(SoleBucket(d, watches + [Watch(s4, IntToString(120))]))
  {
    ChangingTotalsTexts();
    RepeatInSoleBucket(d, watches, s3, 50);
    AppendToSoleBucket(d, watches, s4, 120);
  }

  /** Four calls of which the third repeats the count of the second. */
  lemma RecordAllFour(root: Tree, o1: Observation, o2: Observation, o3: Observation, o4: Observation,
                      t1: Tree, t2: Tree, t3: Tree)
    requires Record(root, o1.total, o1.at) == Recorded(t1)
    requires Record(t1, o2.total, o2.at) == Recorded(t2)
    requires Record(t2, o3.total, o3.at) == Unchanged
    requires Record(t2, o4.total, o4.at) == Recorded(t3)
    ensures RecordAll(root, [o1, o2, o3, o4]) == Some(t3)
  {
    assert [o4][1..] == [];
    assert RecordAll(t2, [o4]) == Some(t3);
    assert [o3, o4][1..] == [o4];
    assert RecordAll(t2, [o3, o4]) == Some(t3);
    assert [o2, o3, o4][1..] == [o3, o4];
    assert RecordAll(t1, [o2, o3, o4]) == Some(t3);
    assert [o1, o2, o3, o4][1..] == [o2, o3, o4];
  }

  lemma ChangingTotalsTexts()
    ensures IntToString(0) == "0" && IntToString(50) == "50" && IntToString(120) == "120"
  {
    assert NatToString(5) == "5";
    assert NatToString(1) == "1";
    assert NatToString(12) == "12";
  }

  /** A ledger of one bucket for `d`, opened with `prev_count` "0", holding `watches`. */
  function SoleBucket(d: CalendarDate, watches: seq<Node>): Tree {
    Element("squirrel", map[], None, [
      Comment(Disclaimer), Element("watches", map["prev_count" := "0", "date" := Format(d)], None, watches)])
  }

  /** The first count recorded in a new ledger opens a bucket with `prev_count` "0" holding it. */
  lemma OpenSoleBucket(d: CalendarDate, stamp: string, total: int)
    ensures Record(InitialTree(), total, Timestamp(d, stamp)) == Recorded(SoleBucket(d, [Watch(stamp, IntToString(total))]))
  {
    assert MakeWatchEntry(NewBucket(d, "0"), stamp, IntToString(total)) == SoleBucket(d, [Watch(stamp, IntToString(total))]).children[1];
  }

  /** A count different from the sole bucket's last one is appended to it. */
  lemma AppendToSoleBucket(d: CalendarDate, watches: seq<Node>, stamp: string, total: int)
    requires watches != [] && Text(watches[|watches| - 1]) != Some(IntToString(total))
    ensures Record(SoleBucket(d, watches), total, Timestamp(d, stamp))
      == Recorded(SoleBucket(d, watches + [Watch(stamp, IntToString(total))]))
  {
    SoleBucketFound(d, watches);
    RecordAt(SoleBucket(d, watches), 1, total, Timestamp(d, stamp));
    SoleBucketAppended(d, watches, stamp, IntToString(total));
  }

  /** Appending a watch entry to the sole bucket gives the sole-bucket ledger of the longer list. */
  lemma SoleBucketAppended(d: CalendarDate, watches: seq<Node>, stamp: string, value: string)
    ensures var root, after := SoleBucket(d, watches), SoleBucket(d, watches + [Watch(stamp, value)]);
      root.children[1].Element? && root.children[1].children == watches
      && root.(children := root.children[1 := MakeWatchEntry(root.children[1], stamp, value)]) == after
  {
    var root, after := SoleBucket(d, watches), SoleBucket(d, watches + [Watch(stamp, value)]);
    var bucket: Tree := root.children[1];
    assert MakeWatchEntry(bucket, stamp, value) == after.children[1];
    assert root.children[1 := after.children[1]] == after.children;
  }

  /** The sole bucket is the bucket found for its date. */
  lemma SoleBucketFound(d: CalendarDate, watches: seq<Node>)
    ensures FirstBucket(SoleBucket(d, watches).children, Format(d)) == Some(1)
  {
    FirstBucketAt(SoleBucket(d, watches).children, Format(d), 1);
  }

  /** Where the bucket for the date is found at `i`, recording is the existing-bucket branch. */
  lemma RecordAt(root: Tree, i: nat, total: int, at: Timestamp)
    requires FirstBucket(root.children, Format(at.date)) == Some(i)
    ensures i < |root.children| && IsBucket(root.children[i])
    ensures Record(root, total, at) == RecordInBucket(root, i, total, at)
  {
  }

  /** The sole bucket's last count repeated leaves the ledger unchanged. */
  lemma RepeatInSoleBucket(d: CalendarDate, watches: seq<Node>, stamp: string, total: int)
    requires watches != [] && Text(watches[|watches| - 1]) == Some(IntToString(total))
    ensures Record(SoleBucket(d, watches), total, Timestamp(d, stamp)) == Unchanged
  {
    var root := SoleBucket(d, watches);
    SoleBucketFound(d, watches);
    assert LastCount(root.children[1]) == LastText(Some(IntToString(total)));
    UnchangedIffSameCount(root, total, Timestamp(d, stamp));
  }
}
