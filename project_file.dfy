/**
 * The project descriptor: the tree `build_project_file` builds, the record
 * `get_data_from_project_file` reads out of it, and the partial rewrite done by
 * `update_project_file`.
 */
module ProjectFile {
  import opened Wrappers
  import opened XmlTree
  import opened Decimal
  import opened Dates

  /** An entry of the caller's `data` dict as `data.get` sees it. */
  datatype Arg<T> = Absent | Null | Given(value: T)

  /** The `data` of `build_project_file`: `description`, `due` and `goal` are required keys. */
  datatype NewProject = NewProject(
    name: Arg<string>,
    description: Option<string>,
    due: Option<CalendarDate>,
    goal: int,
    projectType: Arg<string>)

  /** `f"{data.get('name', '')}"`: an absent key gives the empty name, a None value the text "None". */
  function NameAttribute(name: Arg<string>): string {
    match name
    case Absent => ""
    case Null => "None"
    case Given(s) => s
  }

  /** `data.get('project_type', 'text')`, with None also falling back to "text". */
  function ProjectTypeText(projectType: Arg<string>): string {
    if projectType.Given? then projectType.value else "text"
  }

  /** The `due-date` text: the formatted date, or no text when `due` is None. */
  function DueText(due: Option<CalendarDate>): Option<string> {
    MapOption(due, Format)
  }

  function Leaf(tag: string, attrib: map<string, string>, text: Option<string>): Node {
    Element(tag, attrib, text, [])
  }

  /** The tags of the five children of a new project descriptor, in document order. */
  const ProjectTags: seq<string> := ["path", "description", "due-date", "goal", "project-type"]

  /** The tree `build_project_file` writes for a project kept in directory `dir`. */
  function InitialTree(data: NewProject, dir: string): Tree {
    Element("squirrel", map["name" := NameAttribute(data.name)], None, [
      Leaf("path", map["src" := dir], None),
      Leaf("description", map[], data.description),
      Leaf("due-date", map[], DueText(data.due)),
      Leaf("goal", map[], Some(IntToString(data.goal))),
      Leaf("project-type", map[], Some(ProjectTypeText(data.projectType)))])
  }

  /** The built root is `squirrel` with the five expected leaf children, in order. */
  lemma InitialTreeShape(data: NewProject, dir: string)
    ensures var root := InitialTree(data, dir);
      && root.tag == "squirrel" && root.attrib.Keys == {"name"}
      && |root.children| == |ProjectTags|
      && forall k :: 0 <= k < |ProjectTags| ==> HasTag(root.children[k], ProjectTags[k]) && root.children[k].children == []
  {
  }

  // ---- Reading the descriptor -------------------------------------------------

  /** The dict `get_data_from_project_file` returns: always these six keys, each possibly None. */
  datatype ProjectRecord = ProjectRecord(
    name: Option<string>,
    path: Option<string>,
    description: Option<string>,
    goal: Option<string>,
    dueDate: Option<string>,
    projectType: Option<string>)

  /** `node.attrib[key]`, None when the key is missing. */
  function Attribute(n: Node, key: string): Option<string> {
    if n.Element? && key in n.attrib then Some(n.attrib[key]) else None
  }

  /** `root.find(tag).text`, None when there is no such child. */
  function ChildText(root: Tree, tag: string): Option<string> {
    match Find(root, tag)
    case None => None
    case Some(e) => Text(e)
  }

  /** `root.find(tag).attrib[key]`, None when the child or the attribute is missing. */
  function ChildAttribute(root: Tree, tag: string, key: string): Option<string> {
    match Find(root, tag)
    case None => None
    case Some(e) => Attribute(e, key)
  }

  /** Each field is looked up on its own; a failed lookup yields None for that field only. */
  function Read(root: Tree): ProjectRecord {
    ProjectRecord(
      Attribute(root, "name"),
      ChildAttribute(root, "path", "src"),
      ChildText(root, "description"),
      ChildText(root, "goal"),
      ChildText(root, "due-date"),
      ChildText(root, "project-type"))
  }

  /** The five element tags are pairwise different. */
  lemma TagsDistinct()
    ensures "path" != "description"
    ensures "path" != "due-date"
    ensures "path" != "goal"
    ensures "path" != "project-type"
    ensures "description" != "due-date"
    ensures "description" != "goal"
    ensures "description" != "project-type"
    ensures "due-date" != "goal"
    ensures "due-date" != "project-type"
    ensures "goal" != "project-type"
  {
  }

  /** In a descriptor of the built shape, `find` reaches each of the five leaves. */
  lemma FindBuiltShape(root: Tree, name: string, dir: string, description: Option<string>,
                       due: Option<string>, goal: Option<string>, projectType: Option<string>)
    requires root == Element("squirrel", map["name" := name], None, [
      Leaf("path", map["src" := dir], None),
      Leaf("description", map[], description),
      Leaf("due-date", map[], due),
      Leaf("goal", map[], goal),
      Leaf("project-type", map[], projectType)])
    ensures Find(root, "path") == Some(root.children[0])
    ensures Find(root, "description") == Some(root.children[1])
    ensures Find(root, "due-date") == Some(root.children[2])
    ensures Find(root, "goal") == Some(root.children[3])
    ensures Find(root, "project-type") == Some(root.children[4])
  {
    TagsDistinct();
    var c := root.children;
    FindIndexAt(c, "path", 0);
    FindIndexAt(c, "description", 1);
    FindIndexAt(c, "due-date", 2);
    FindIndexAt(c, "goal", 3);
    FindIndexAt(c, "project-type", 4);
  }

  /** Reading a descriptor of the built shape gives back each value it holds, with every leaf found. */
  lemma ReadBuiltShape(root: Tree, name: string, dir: string, description: Option<string>,
                       due: Option<string>, goal: Option<string>, projectType: Option<string>)
    requires root == Element("squirrel", map["name" := name], None, [
      Leaf("path", map["src" := dir], None),
      Leaf("description", map[], description),
      Leaf("due-date", map[], due),
      Leaf("goal", map[], goal),
      Leaf("project-type", map[], projectType)])
    ensures Read(root) == ProjectRecord(Some(name), Some(dir), description, goal, due, projectType)
    ensures forall tag :: tag in ProjectTags ==> Find(root, tag).Some?
  {
    FindBuiltShape(root, name, dir, description, due, goal, projectType);
    ReadFromLeaves(root, name, dir, description, due, goal, projectType);
    AllTagsFound(root);
  }

  /** A descriptor in which `find` reaches each of the five tags reaches every tag of the list. */
  lemma AllTagsFound(root: Tree)
    requires Find(root, "path").Some? && Find(root, "description").Some? && Find(root, "due-date").Some?
    requires Find(root, "goal").Some? && Find(root, "project-type").Some?
    ensures forall tag :: tag in ProjectTags ==> Find(root, tag).Some?
  {
    forall tag | tag in ProjectTags
      ensures Find(root, tag).Some?
    {
      assert tag == "path" || tag == "description" || tag == "due-date" || tag == "goal" || tag == "project-type";
    }
  }

  /** A descriptor whose `find` reaches the given leaves reads back the values they hold. */
  lemma ReadFromLeaves(root: Tree, name: string, dir: string, description: Option<string>,
                       due: Option<string>, goal: Option<string>, projectType: Option<string>)
    requires Attribute(root, "name") == Some(name)
    requires Find(root, "path") == Some(Leaf("path", map["src" := dir], None))
    requires Find(root, "description") == Some(Leaf("description", map[], description))
    requires Find(root, "due-date") == Some(Leaf("due-date", map[], due))
    requires Find(root, "goal") == Some(Leaf("goal", map[], goal))
    requires Find(root, "project-type") == Some(Leaf("project-type", map[], projectType))
    ensures Read(root) == ProjectRecord(Some(name), Some(dir), description, goal, due, projectType)
  {
  }

  /** Reading back a freshly built descriptor gives every value it was built from. */
  lemma ReadInitialTree(data: NewProject, dir: string)
    ensures Read(InitialTree(data, dir)) == ProjectRecord(
      Some(NameAttribute(data.name)),
      Some(dir),
      data.description,
      Some(IntToString(data.goal)),
      DueText(data.due),
      Some(ProjectTypeText(data.projectType)))
    ensures forall tag :: tag in ProjectTags ==> Find(InitialTree(data, dir), tag).Some?
  {
    ReadBuiltShape(InitialTree(data, dir), NameAttribute(data.name), dir, data.description,
                   DueText(data.due), Some(IntToString(data.goal)), Some(ProjectTypeText(data.projectType)));
  }

  /** The six keys of a record. */
  datatype Key = NameKey | PathKey | DescriptionKey | GoalKey | DueDateKey | ProjectTypeKey

  function Lookup(r: ProjectRecord, key: Key): Option<string> {
    match key
    case NameKey => r.name
    case PathKey => r.path
    case DescriptionKey => r.description
    case GoalKey => r.goal
    case DueDateKey => r.dueDate
    case ProjectTypeKey => r.projectType
  }

  /** The element tag each key is read from; the name is an attribute of the root instead. */
  function KeyTag(key: Key): string
    requires key != NameKey
  {
    match key
    case PathKey => "path"
    case DescriptionKey => "description"
    case GoalKey => "goal"
    case DueDateKey => "due-date"
    case ProjectTypeKey => "project-type"
  }

  /** The descriptor with the source of one key gone: the `name` attribute, or every element with the key's tag. */
  function Damaged(root: Tree, key: Key): Tree {
    if key == NameKey then root.(attrib := root.attrib - {"name"})
    else root.(children := Without(root.children, KeyTag(key)))
  }

  /** A descriptor missing the source of one key reads that key as None and every other key as before. */
  lemma ReadDamaged(root: Tree, key: Key)
    ensures Lookup(Read(Damaged(root, key)), key) == None
    ensures forall other :: other != key ==> Lookup(Read(Damaged(root, key)), other) == Lookup(Read(root), other)
  {
    if key == NameKey {
      assert Read(Damaged(root, key)) == Cleared(Read(root), key);
    } else {
      ReadWithoutElements(root, key);
    }
    LookupCleared(Read(root), key);
  }

  /** The record with one key set to None. */
  function Cleared(r: ProjectRecord, key: Key): ProjectRecord {
    match key
    case NameKey => r.(name := None)
    case PathKey => r.(path := None)
    case DescriptionKey => r.(description := None)
    case GoalKey => r.(goal := None)
    case DueDateKey => r.(dueDate := None)
    case ProjectTypeKey => r.(projectType := None)
  }

  /** Clearing a key makes it None and leaves every other key as it was. */
  lemma LookupCleared(r: ProjectRecord, key: Key)
    ensures Lookup(Cleared(r, key), key) == None
    ensures forall other :: other != key ==> Lookup(Cleared(r, key), other) == Lookup(r, other)
  {
  }

  /** Dropping the elements of one key's tag makes that key None and keeps every other key. */
  lemma ReadWithoutElements(root: Tree, key: Key)
    requires key != NameKey
    ensures Read(Damaged(root, key)) == Cleared(Read(root), key)
  {
    TagsDistinct();
    var t := KeyTag(key);
    FirstWithTagWithout(root.children, t, "path");
    FirstWithTagWithout(root.children, t, "description");
    FirstWithTagWithout(root.children, t, "goal");
    FirstWithTagWithout(root.children, t, "due-date");
    FirstWithTagWithout(root.children, t, "project-type");
  }

  /** Every `path` element with its `src` attribute removed; all other children as they are. */
  function WithoutSource(c: seq<Node>): (r: seq<Node>)
    ensures |r| == |c|
    ensures forall k :: 0 <= k < |c| ==> r[k].Element? == c[k].Element? && (r[k].Element? ==> r[k].tag == c[k].tag)
    ensures forall k :: 0 <= k < |c| && HasTag(c[k], "path") ==> r[k].Element? && "src" !in r[k].attrib
    ensures forall k :: 0 <= k < |c| && !HasTag(c[k], "path") ==> r[k] == c[k]
  {
    seq(|c|, k requires 0 <= k < |c| => if HasTag(c[k], "path") then c[k].(attrib := c[k].attrib - {"src"}) else c[k])
  }

  /** Stripping `src` changes no tag, so `find` selects the same positions. */
  lemma FindIndexWithoutSource(c: seq<Node>, tag: string)
    ensures FindIndex(WithoutSource(c), tag) == FindIndex(c, tag)
  {
    FindIndexSameTags(WithoutSource(c), c, tag);
  }

  /** Stripping `src` leaves the text of the first element with any other tag as it was. */
  lemma ChildTextWithoutSource(root: Tree, tag: string)
    requires tag != "path"
    ensures ChildText(root.(children := WithoutSource(root.children)), tag) == ChildText(root, tag)
  {
    FindIndexWithoutSource(root.children, tag);
  }

  /** After stripping, the first `path` element, if any, has no `src`. */
  lemma PathWithoutSource(root: Tree)
    ensures ChildAttribute(root.(children := WithoutSource(root.children)), "path", "src") == None
  {
    FindIndexWithoutSource(root.children, "path");
  }

  /**
   * A `path` element without `src` raises the KeyError that reads the path as None;
   * a descriptor stripped that way reads every other key as before.
   */
  lemma ReadWithoutSource(root: Tree)
    ensures var stripped := root.(children := WithoutSource(root.children));
      && Read(stripped).path == None
      && forall other :: other != PathKey ==> Lookup(Read(stripped), other) == Lookup(Read(root), other)
  {
    var stripped := root.(children := WithoutSource(root.children));
    PathWithoutSource(root);
    ChildTextWithoutSource(root, "description");
    ChildTextWithoutSource(root, "goal");
    ChildTextWithoutSource(root, "due-date");
    ChildTextWithoutSource(root, "project-type");
    assert Read(stripped) == Cleared(Read(root), PathKey);
    LookupCleared(Read(root), PathKey);
  }

  // ---- Partial update ---------------------------------------------------------

  /** The `data` of `update_project_file`: a key that is absent or None is `None` here. */
  datatype ProjectUpdate = ProjectUpdate(
    name: Option<string>,
    description: Option<string>,
    goal: Option<int>,
    due: Option<CalendarDate>,
    projectType: Option<string>)

  /** The element fields an update rewrites, in the order the update processes them. */
  datatype Field = Description | Goal | DueDate | ProjectType

  function FieldTag(f: Field): string {
    match f
    case Description => "description"
    case Goal => "goal"
    case DueDate => "due-date"
    case ProjectType => "project-type"
  }

  function FieldKey(f: Field): Key {
    match f
    case Description => DescriptionKey
    case Goal => GoalKey
    case DueDate => DueDateKey
    case ProjectType => ProjectTypeKey
  }

  /** The text an update writes into the field's element, None when it leaves the field alone. */
  function NewText(u: ProjectUpdate, f: Field): Option<string> {
    match f
    case Description => u.description
    case Goal => MapOption(u.goal, IntToString)
    case DueDate => MapOption(u.due, Format)
    case ProjectType => u.projectType
  }

  const AllFields: set<Field> := {Description, Goal, DueDate, ProjectType}

  /** The field whose element carries the tag, if any. */
  function TagField(tag: string): (r: Option<Field>)
    ensures r.Some? ==> FieldTag(r.value) == tag
    ensures forall f :: FieldTag(f) == tag ==> r == Some(f)
  {
    if tag == "description" then Some(Description)
    else if tag == "goal" then Some(Goal)
    else if tag == "due-date" then Some(DueDate)
    else if tag == "project-type" then Some(ProjectType)
    else None
  }

  /**
   * The processed field (one in `done`) that rewrites child `k` of `c`, if any: a given
   * field whose tag the child carries, the child being the first with that tag.
   */
  function Target(c: seq<Node>, k: nat, u: ProjectUpdate, done: set<Field>): (r: Option<Field>)
    requires k < |c|
    ensures r.Some? ==> c[k].Element? && r.value in done && NewText(u, r.value).Some?
    ensures r.Some? ==> FindIndex(c, FieldTag(r.value)) == Some(k)
  {
    if !c[k].Element? then None
    else match TagField(c[k].tag)
      case None => None
      case Some(f) =>
        if f in done && NewText(u, f).Some? && FindIndex(c, FieldTag(f)) == Some(k) then Some(f) else None
  }

  function ChildAfter(c: seq<Node>, k: nat, u: ProjectUpdate, done: set<Field>): Node
    requires k < |c|
  {
    match Target(c, k, u, done)
    case None => c[k]
    case Some(f) => c[k].(text := NewText(u, f))
  }

  function Renamed(attrib: map<string, string>, name: Option<string>): map<string, string> {
    if name.Some? then attrib["name" := name.value] else attrib
  }

  /**
   * The descriptor once the name and the fields in `done` are applied: each given
   * field rewrites the text of the first child with its tag, and nothing else moves.
   */
  function UpdatedWith(root: Tree, u: ProjectUpdate, done: set<Field>): Tree {
    Element(root.tag, Renamed(root.attrib, u.name), root.text,
      seq(|root.children|, k requires 0 <= k < |root.children| => ChildAfter(root.children, k, u, done)))
  }

  /** The tree `update_project_file` writes back. */
  function Updated(root: Tree, u: ProjectUpdate): Tree {
    UpdatedWith(root, u, AllFields)
  }

  /** The fields an update reports as missing, in processing order: given, but without an element. */
  function Skipped(root: Tree, u: ProjectUpdate): (r: seq<Field>)
    ensures forall f :: f in r <==> NewText(u, f).Some? && Find(root, FieldTag(f)).None?
  {
    InMissing(root, u, Description);
    InMissing(root, u, Goal);
    InMissing(root, u, DueDate);
    InMissing(root, u, ProjectType);
    Missing(root, u, Description) + Missing(root, u, Goal) + Missing(root, u, DueDate) + Missing(root, u, ProjectType)
  }

  /** The error one `if` block of `update_project_file` logs: the field is given but has no element. */
  function Missing(root: Tree, u: ProjectUpdate, f: Field): seq<Field> {
    if NewText(u, f).Some? && FindIndex(root.children, FieldTag(f)).None? then [f] else []
  }

  /** A field is logged by its own block exactly when it is given and has no element. */
  lemma InMissing(root: Tree, u: ProjectUpdate, f: Field)
    ensures forall g :: g in Missing(root, u, f) <==> g == f && NewText(u, f).Some? && Find(root, FieldTag(f)).None?
  {
  }

  /** Applying one field to a tree, as one `if` block of `update_project_file` does. */
  function ApplyField(root: Tree, u: ProjectUpdate, f: Field): Tree {
    if NewText(u, f).None? then root
    else match FindIndex(root.children, FieldTag(f))
      case None => root
      case Some(i) => SetChildText(root, i, NewText(u, f))
  }

  /** Partial updates keep every child's tag, so lookups by tag find the same positions. */
  lemma UpdatedWithFinds(root: Tree, u: ProjectUpdate, done: set<Field>, tag: string)
    ensures FindIndex(UpdatedWith(root, u, done).children, tag) == FindIndex(root.children, tag)
  {
    FindIndexSameTags(UpdatedWith(root, u, done).children, root.children, tag);
  }

  /** With no field processed yet, only the name may differ. */
  lemma UpdatedWithNothing(root: Tree, u: ProjectUpdate)
    ensures UpdatedWith(root, u, {}) == root.(attrib := Renamed(root.attrib, u.name))
  {
    assert UpdatedWith(root, u, {}).children == root.children;
  }

  /** Processing one more field steps from one partial update to the next. */
  lemma ApplyFieldStep(root: Tree, u: ProjectUpdate, done: set<Field>, f: Field)
    requires f !in done
    ensures ApplyField(UpdatedWith(root, u, done), u, f) == UpdatedWith(root, u, done + {f})
  {
    var before := UpdatedWith(root, u, done);
    var after := UpdatedWith(root, u, done + {f});
    var c := root.children;
    UpdatedWithFinds(root, u, done, FieldTag(f));
    var applied := ApplyField(before, u, f);
    forall k | 0 <= k < |c|
      ensures applied.children[k] == after.children[k]
    {
      if c[k].Element? && TagField(c[k].tag) == Some(f) && NewText(u, f).Some? && FindIndex(c, FieldTag(f)) == Some(k) {
        assert Target(c, k, u, done + {f}) == Some(f);
        assert Target(c, k, u, done) == None;
      } else {
        assert Target(c, k, u, done + {f}) == Target(c, k, u, done);
      }
    }
    assert applied.children == after.children;
  }

  /** A field of the record is the text of the first element with the field's tag. */
  lemma ReadField(root: Tree, f: Field)
    ensures Lookup(Read(root), FieldKey(f)) == ChildText(root, FieldTag(f))
  {
    var r := Read(root);
    assert r.description == ChildText(root, "description") && r.goal == ChildText(root, "goal");
    assert r.dueDate == ChildText(root, "due-date") && r.projectType == ChildText(root, "project-type");
    match f
    case Description =>
    case Goal =>
    case DueDate =>
    case ProjectType =>
  }

  /** An update rewrites the text found under a given field's tag, when there is such an element. */
  lemma ChildTextUpdated(root: Tree, u: ProjectUpdate, f: Field)
    ensures ChildText(Updated(root, u), FieldTag(f)) ==
      if NewText(u, f).Some? && Find(root, FieldTag(f)).Some? then NewText(u, f)
      else ChildText(root, FieldTag(f))
  {
    var c := root.children;
    UpdatedWithFinds(root, u, AllFields, FieldTag(f));
    var i := FindIndex(c, FieldTag(f));
    if i.Some? {
      var k := i.value;
      assert TagField(c[k].tag) == Some(f);
      if NewText(u, f).Some? {
        assert Target(c, k, u, AllFields) == Some(f);
      } else {
        assert Target(c, k, u, AllFields) == None;
      }
    }
  }

  /** An update sets the name when one is given and never touches the path. */
  lemma ReadUpdatedNameAndPath(root: Tree, u: ProjectUpdate)
    ensures Read(Updated(root, u)).name == if u.name.Some? then u.name else Read(root).name
    ensures Read(Updated(root, u)).path == Read(root).path
  {
    var after := Updated(root, u);
    UpdatedWithFinds(root, u, AllFields, "path");
    var i := FindIndex(root.children, "path");
    if i.Some? {
      assert Target(root.children, i.value, u, AllFields) == None;
      assert after.children[i.value] == root.children[i.value];
    }
    assert Find(after, "path") == Find(root, "path");
  }

  /** The per-field effect of an update, seen through the record read back afterwards. */
  lemma ReadUpdated(root: Tree, u: ProjectUpdate)
    ensures Read(Updated(root, u)).name == if u.name.Some? then u.name else Read(root).name
    ensures Read(Updated(root, u)).path == Read(root).path
    ensures forall f :: Lookup(Read(Updated(root, u)), FieldKey(f)) ==
                        if NewText(u, f).Some? && Find(root, FieldTag(f)).Some? then NewText(u, f)
                        else Lookup(Read(root), FieldKey(f))
  {
    var after := Updated(root, u);
    ReadUpdatedNameAndPath(root, u);
    forall f ensures Lookup(Read(after), FieldKey(f)) ==
                     if NewText(u, f).Some? && Find(root, FieldTag(f)).Some? then NewText(u, f)
                     else Lookup(Read(root), FieldKey(f))
    {
      ChildTextUpdated(root, u, f);
      ReadField(after, f);
      ReadField(root, f);
    }
  }

  /**
   * Nothing outside the given fields changes: root tag, text and other attributes, and
   * every child except the first element of a given field's tag, whose text alone is rewritten.
   */
  lemma UpdatedFrame(root: Tree, u: ProjectUpdate)
    ensures var after := Updated(root, u);
      && after.tag == root.tag && after.text == root.text
      && (forall key :: key != "name" ==> (key in after.attrib <==> key in root.attrib))
      && (forall key :: key != "name" && key in root.attrib ==> after.attrib[key] == root.attrib[key])
      && (u.name.None? ==> after.attrib == root.attrib)
      && |after.children| == |root.children|
      && forall k :: 0 <= k < |root.children| ==>
           (after.children[k] == root.children[k]
            || exists f :: NewText(u, f).Some? && FindIndex(root.children, FieldTag(f)) == Some(k)
                           && after.children[k] == root.children[k].(text := NewText(u, f)))
  {
    var after := Updated(root, u);
    forall k | 0 <= k < |root.children|
      ensures after.children[k] == root.children[k]
            || exists f :: NewText(u, f).Some? && FindIndex(root.children, FieldTag(f)) == Some(k)
                           && after.children[k] == root.children[k].(text := NewText(u, f))
    {
      var t := Target(root.children, k, u, AllFields);
      if t.Some? {
        assert NewText(u, t.value).Some? && FindIndex(root.children, FieldTag(t.value)) == Some(k);
      }
    }
  }

  /** An update that gives no field writes back the tree it read. */
  lemma UpdateWithNothing(root: Tree)
    ensures Updated(root, ProjectUpdate(None, None, None, None, None)) == root
  {
    var u := ProjectUpdate(None, None, None, None, None);
    assert Updated(root, u).children == root.children;
  }

  /** Applying the same update twice gives the tree of applying it once. */
  lemma UpdateIdempotent(root: Tree, u: ProjectUpdate)
    ensures Updated(Updated(root, u), u) == Updated(root, u)
  {
    var once := Updated(root, u);
    var twice := Updated(once, u);
    forall f ensures FindIndex(once.children, FieldTag(f)) == FindIndex(root.children, FieldTag(f)) {
      UpdatedWithFinds(root, u, AllFields, FieldTag(f));
    }
    forall k | 0 <= k < |root.children|
      ensures twice.children[k] == once.children[k]
    {
      assert Target(once.children, k, u, AllFields) == Target(root.children, k, u, AllFields);
    }
    assert twice.children == once.children;
  }

  /** A field the update does not give reads back as before. */
  lemma ChildTextUntouched(root: Tree, u: ProjectUpdate, f: Field)
    requires NewText(u, f).None?
    ensures ChildText(Updated(root, u), FieldTag(f)) == ChildText(root, FieldTag(f))
  {
    ChildTextUpdated(root, u, f);
  }

  /** Two descriptors that agree on every key but the goal read back alike apart from the goal. */
  lemma ReadAllButGoal(a: Tree, b: Tree)
    requires Attribute(a, "name") == Attribute(b, "name")
    requires ChildAttribute(a, "path", "src") == ChildAttribute(b, "path", "src")
    requires ChildText(a, "description") == ChildText(b, "description")
    requires ChildText(a, "due-date") == ChildText(b, "due-date")
    requires ChildText(a, "project-type") == ChildText(b, "project-type")
    ensures Read(a) == Read(b).(goal := ChildText(a, "goal"))
  {
  }

  /** An update giving only the goal changes at most the goal of the record read back. */
  lemma ReadAfterGoalUpdate(root: Tree, goal: int)
    ensures Read(Updated(root, ProjectUpdate(None, None, Some(goal), None, None))) ==
      if Find(root, "goal").Some? then Read(root).(goal := Some(IntToString(goal))) else Read(root)
  {
    var u := ProjectUpdate(None, None, Some(goal), None, None);
    ReadUpdatedNameAndPath(root, u);
    ChildTextUntouched(root, u, Description);
    ChildTextUntouched(root, u, DueDate);
    ChildTextUntouched(root, u, ProjectType);
    ChildTextUpdated(root, u, Goal);
    ReadAllButGoal(Updated(root, u), root);
  }

  /**
   * A project "Novel" with goal 50000 due 31 December 2025, whose goal alone is then
   * updated to 60000, reads back with its name and due date kept and the new goal.
   */
  lemma NovelScenario(dir: string, data: NewProject, u: ProjectUpdate)
    requires data == NewProject(Given("Novel"), None, Some(Date(31, 12, 2025)), 50000, Absent)
    requires u == ProjectUpdate(None, None, Some(60000), None, None)
    ensures var record := Read(Updated(InitialTree(data, dir), u));
      && record.name == Some("Novel")
      && record.goal == Some("60000")
      && record.dueDate == Some("31/12/2025")
      && record.projectType == Some("text")
  {
    var built := InitialTree(data, dir);
    NovelBuilt(dir, data);
    ReadAfterGoalUpdate(built, 60000);
    NovelTexts();
  }

  lemma NovelBuilt(dir: string, data: NewProject)
    requires data == NewProject(Given("Novel"), None, Some(Date(31, 12, 2025)), 50000, Absent)
    ensures var built := InitialTree(data, dir);
      && Read(built).name == Some("Novel")
      && Read(built).dueDate == Some(Format(Date(31, 12, 2025)))
      && Read(built).projectType == Some("text")
      && Find(built, "goal").Some?
  {
    assert NameAttribute(data.name) == "Novel";
    ReadInitialTree(data, dir);
    assert "goal" in ProjectTags;
  }

  lemma NovelTexts()
    ensures IntToString(60000) == "60000"
    ensures Format(Date(31, 12, 2025)) == "31/12/2025"
  {
    NovelGoalText();
    NovelDueText();
  }

  lemma NovelGoalText()
    ensures IntToString(60000) == "60000"
  {
    assert NatToString(6) == "6";
    assert NatToString(60) == "60";
    assert NatToString(600) == "600";
    assert NatToString(6000) == "6000";
  }

  lemma NovelDueText()
    ensures Format(Date(31, 12, 2025)) == "31/12/2025"
  {
    NovelYearText();
    NovelDayMonthText();
    assert Format(Date(31, 12, 2025)) == ZeroPad(31, 2) + "/" + ZeroPad(12, 2) + "/" + ZeroPad(2025, 4);
  }

  lemma NovelYearText()
    ensures ZeroPad(2025, 4) == "2025"
  {
    assert ZeroPad(2, 1) == "2";
    assert ZeroPad(20, 2) == "20";
    assert ZeroPad(202, 3) == "202";
  }

  lemma NovelDayMonthText()
    ensures ZeroPad(31, 2) == "31" && ZeroPad(12, 2) == "12"
  {
    assert ZeroPad(3, 1) == "3";
    assert ZeroPad(1, 1) == "1";
  }
}
