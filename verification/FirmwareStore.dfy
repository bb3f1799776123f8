// The firmware store: image files named by content and a manifest naming them,
// changed one file operation at a time (provision/src/firmware.rs).
//
// A command can stop between any two file operations. The disk keeps a ghost
// history of every state it was ever in, and the store's invariant speaks of
// all of them.
module FirmwareStore {
  import opened Words

  datatype Artifact = Artifact(id: string, name: string, appStart: nat, storage: Option<(nat, nat)>)

  datatype Image = Image(appStart: nat, storage: Option<(nat, nat)>)

  // The two readings of an image's bytes: its content hash, and what its
  // headers declare, when they can be read.
  datatype Reader = Reader(hash: seq<Byte> -> string, elf: seq<Byte> -> Option<Image>)

  datatype StoreError = InvalidName | ReadFailed | BadElf | WriteFailed

  datatype Result<T> = Done(value: T) | Failed(error: StoreError)

  // ---- names and their order ----

  // The characters with the property White_Space.
  predicate IsWhitespace(c: char) {
    var p := c as int;
    || 0x09 <= p <= 0x0D || p == 0x20 || p == 0x85 || p == 0xA0 || p == 0x1680 || 0x2000 <= p <= 0x200A
    || p == 0x2028 || p == 0x2029 || p == 0x202F || p == 0x205F || p == 0x3000
  }

  // The characters of the category Control.
  predicate IsControl(c: char) {
    c as int <= 0x1F || 0x7F <= c as int <= 0x9F
  }

  predicate IsName(name: string) {
    name != "" && forall i :: 0 <= i < |name| ==> !IsWhitespace(name[i]) && !IsControl(name[i])
  }

  // Within ASCII a name is exactly a nonempty run of the printable characters
  // `!` to `~`.
  lemma {:induction false} AsciiNames(name: string)
    requires forall i :: 0 <= i < |name| ==> name[i] as int < 0x80
    ensures IsName(name) <==> |name| > 0 && forall i :: 0 <= i < |name| ==> '!' <= name[i] <= '~'
  {
  }

  predicate Less(a: string, b: string)
    decreases |a|
  {
    b != "" && (a == "" || a[0] < b[0] || (a[0] == b[0] && Less(a[1..], b[1..])))
  }

  // The order of names: at the first difference the smaller character, or the
  // end of the name, comes first.
  lemma {:induction false} LessIsLexicographic(a: string, b: string)
    ensures Less(a, b) <==>
              exists k :: 0 <= k <= |a| && k < |b| && a[..k] == b[..k] && (k == |a| || a[k] < b[k])
    decreases |a|
  {
    if Less(a, b) {
      var k := FirstDifference(a, b);
    }
    if k :| 0 <= k <= |a| && k < |b| && a[..k] == b[..k] && (k == |a| || a[k] < b[k]) {
      DecidedAt(a, b, k);
    }
  }

  lemma {:induction false} FirstDifference(a: string, b: string) returns (k: nat)
    requires Less(a, b)
    ensures k <= |a| && k < |b| && a[..k] == b[..k] && (k == |a| || a[k] < b[k])
    decreases |a|
  {
    if a == "" || a[0] < b[0] {
      k := 0;
    } else {
      var rest := FirstDifference(a[1..], b[1..]);
      k := rest + 1;
      assert a[..k] == [a[0]] + a[1..][..rest] && b[..k] == [b[0]] + b[1..][..rest];
    }
  }

  lemma {:induction false} DecidedAt(a: string, b: string, k: nat)
    requires k <= |a| && k < |b| && a[..k] == b[..k] && (k == |a| || a[k] < b[k])
    ensures Less(a, b)
    decreases k
  {
    if k > 0 {
      assert a[0] == a[..k][0] && b[0] == b[..k][0];
      assert a[1..][..k - 1] == a[..k][1..] && b[1..][..k - 1] == b[..k][1..];
      DecidedAt(a[1..], b[1..], k - 1);
    }
  }

  lemma {:induction false} LessIsTotal(a: string, b: string)
    ensures Less(a, b) || a == b || Less(b, a)
    ensures !(Less(a, b) && Less(b, a)) && (a == b ==> !Less(a, b))
    decreases |a|
  {
    if a != "" && b != "" {
      LessIsTotal(a[1..], b[1..]);
      assert a == [a[0]] + a[1..] && b == [b[0]] + b[1..];
    }
  }

  lemma {:induction false} LessIsTransitive(a: string, b: string, c: string)
    requires Less(a, b) && Less(b, c)
    ensures Less(a, c)
    decreases |a|
  {
    if a != "" && a[0] == b[0] == c[0] {
      LessIsTransitive(a[1..], b[1..], c[1..]);
    }
  }

  // Stable insertion of a row among rows, and the sort built from it.
  function Placed(rows: seq<Artifact>, a: Artifact): (r: seq<Artifact>)
    ensures |r| == |rows| + 1
    decreases |rows|
  {
    if rows == [] || Less(a.name, rows[0].name) then [a] + rows else [rows[0]] + Placed(rows[1..], a)
  }

  function SortedByName(rows: seq<Artifact>): (r: seq<Artifact>)
    ensures |r| == |rows|
    decreases |rows|
  {
    if rows == [] then [] else Placed(SortedByName(rows[..|rows| - 1]), rows[|rows| - 1])
  }

  ghost predicate UniqueNames(rows: seq<Artifact>) {
    forall i, j :: 0 <= i < j < |rows| ==> rows[i].name != rows[j].name
  }

  ghost predicate Ordered(rows: seq<Artifact>) {
    forall i :: 0 < i < |rows| ==> !Less(rows[i].name, rows[i - 1].name)
  }

  ghost predicate Tidy(rows: seq<Artifact>) {
    UniqueNames(rows) && Ordered(rows)
  }

  ghost function Ids(rows: seq<Artifact>): set<string> {
    set a | a in rows :: a.id
  }

  lemma {:induction false} PlacedMembers(rows: seq<Artifact>, a: Artifact)
    ensures forall b :: b in Placed(rows, a) <==> b == a || b in rows
    decreases |rows|
  {
    if rows != [] && !Less(a.name, rows[0].name) {
      PlacedMembers(rows[1..], a);
      assert rows == [rows[0]] + rows[1..];
    }
  }

  lemma {:induction false} PlacedOrdered(rows: seq<Artifact>, a: Artifact)
    requires Ordered(rows)
    ensures Ordered(Placed(rows, a))
    ensures Placed(rows, a)[0] == a || (rows != [] && Placed(rows, a)[0] == rows[0])
    decreases |rows|
  {
    if rows == [] {
    } else {
      LessIsTotal(a.name, rows[0].name);
      if !Less(a.name, rows[0].name) {
        PlacedOrdered(rows[1..], a);
      }
    }
  }

  lemma {:induction false} PlacedUnique(rows: seq<Artifact>, a: Artifact)
    requires UniqueNames(rows) && forall b :: b in rows ==> b.name != a.name
    ensures UniqueNames(Placed(rows, a))
    decreases |rows|
  {
    if rows != [] && !Less(a.name, rows[0].name) {
      var rest := Placed(rows[1..], a);
      PlacedUnique(rows[1..], a);
      PlacedMembers(rows[1..], a);
      forall j | 0 <= j < |rest|
        ensures rest[j].name != rows[0].name
      {
        assert rest[j] in rest;
      }
    }
  }

  // Order between neighbours is order throughout.
  lemma {:induction false} OrderedThroughout(rows: seq<Artifact>, i: nat, j: nat)
    requires Ordered(rows) && i < j < |rows|
    ensures !Less(rows[j].name, rows[i].name)
    decreases j
  {
    if i < j - 1 {
      OrderedThroughout(rows, i, j - 1);
      NotBefore(rows[i].name, rows[j - 1].name, rows[j].name);
    }
  }

  lemma {:induction false} NotBefore(a: string, b: string, c: string)
    requires !Less(b, a) && !Less(c, b)
    ensures !Less(c, a)
  {
    if Less(c, a) {
      LessIsTotal(a, b);
      if Less(a, b) {
        LessIsTransitive(c, a, b);
      }
    }
  }

  // Sorting keeps the rows and orders them by name.
  lemma {:induction false} SortKeepsRows(rows: seq<Artifact>)
    ensures forall b :: b in SortedByName(rows) <==> b in rows
    ensures Ordered(SortedByName(rows))
    ensures UniqueNames(rows) ==> UniqueNames(SortedByName(rows))
    decreases |rows|
  {
    hide Less, Ordered, Placed;
    if rows == [] {
      EmptyIsOrdered();
    } else {
      var init, last := rows[..|rows| - 1], rows[|rows| - 1];
      SortKeepsRows(init);
      PlacedMembers(SortedByName(init), last);
      PlacedOrdered(SortedByName(init), last);
      assert rows == init + [last];
      if UniqueNames(rows) {
        PlacedUnique(SortedByName(init), last);
      }
    }
  }

  lemma {:induction false} EmptyIsOrdered()
    ensures Ordered([])
  {
  }

  // ---- replacing a row ----

  function IndexOf(rows: seq<Artifact>, name: string): (i: nat)
    ensures i <= |rows|
    ensures i < |rows| ==> rows[i].name == name
    ensures forall j :: 0 <= j < i ==> rows[j].name != name
    decreases |rows|
  {
    if rows == [] || rows[0].name == name then 0 else 1 + IndexOf(rows[1..], name)
  }

  function Replaced(rows: seq<Artifact>, a: Artifact): seq<Artifact> {
    var i := IndexOf(rows, a.name);
    SortedByName(if i < |rows| then rows[i := a] else rows + [a])
  }

  function Removed(rows: seq<Artifact>, i: nat): seq<Artifact>
    requires i < |rows|
  {
    rows[..i] + rows[i + 1..]
  }

  // Main result: with unique names, replacing gives the rows of all other names
  // and the new row, unique and in order of name.
  lemma {:induction false} ReplacedRows(rows: seq<Artifact>, a: Artifact)
    ensures Ordered(Replaced(rows, a)) && a in Replaced(rows, a)
    ensures UniqueNames(rows) ==> UniqueNames(Replaced(rows, a))
    ensures UniqueNames(rows) ==> forall b :: b in Replaced(rows, a) <==> b == a || (b in rows && b.name != a.name)
  {
    hide Less, SortedByName, Ordered;
    var i := IndexOf(rows, a.name);
    var changed := if i < |rows| then rows[i := a] else rows + [a];
    SortKeepsRows(changed);
    assert changed[i] == a;
    if UniqueNames(rows) {
      assert UniqueNames(changed);
      forall b | b in rows && b.name != a.name
        ensures b in changed
      {
        var k :| 0 <= k < |rows| && rows[k] == b;
        assert changed[k] == b;
      }
    }
  }

  // Whatever the names, replacing drops at most the first row of that name.
  lemma {:induction false} ReplacedIds(rows: seq<Artifact>, a: Artifact)
    ensures var i := IndexOf(rows, a.name);
            var ids := Ids(Replaced(rows, a));
            && a.id in ids && ids <= Ids(rows) + {a.id}
            && Ids(rows) <= ids + (if i < |rows| then {rows[i].id} else {})
  {
    hide Less, SortedByName;
    var i := IndexOf(rows, a.name);
    var changed := if i < |rows| then rows[i := a] else rows + [a];
    SortKeepsRows(changed);
    assert changed[i] == a;
    forall b | b in rows
      ensures b in changed || (i < |rows| && b == rows[i])
    {
      var k :| 0 <= k < |rows| && rows[k] == b;
      assert k != i ==> changed[k] == b;
    }
  }

  lemma {:induction false} RemovedIds(rows: seq<Artifact>, i: nat)
    requires i < |rows|
    ensures Ids(Removed(rows, i)) <= Ids(rows) <= Ids(Removed(rows, i)) + {rows[i].id}
  {
    var r := Removed(rows, i);
    assert forall k :: 0 <= k < |r| ==> r[k] == rows[if k < i then k else k + 1];
    forall b | b in rows && b != rows[i]
      ensures b in r
    {
      var k :| 0 <= k < |rows| && rows[k] == b;
      assert r[if k < i then k else k - 1] == b;
    }
  }

  // Removing a row keeps exactly the rows of all other names ...
  lemma {:induction false} RemovedMembers(rows: seq<Artifact>, i: nat)
    requires i < |rows| && UniqueNames(rows)
    ensures forall b :: b in Removed(rows, i) <==> b in rows && b.name != rows[i].name
  {
    var r := Removed(rows, i);
    assert forall k :: 0 <= k < |r| ==> r[k] == rows[if k < i then k else k + 1];
    forall b | b in rows && b.name != rows[i].name
      ensures b in r
    {
      var k :| 0 <= k < |rows| && rows[k] == b;
      assert r[if k < i then k else k - 1] == b;
    }
  }

  // ... unique and in order of name.
  lemma {:induction false} RemovedRows(rows: seq<Artifact>, i: nat)
    requires i < |rows|
    ensures |Removed(rows, i)| == |rows| - 1
    ensures UniqueNames(rows) ==>
              UniqueNames(Removed(rows, i)) &&
              forall b :: b in Removed(rows, i) <==> b in rows && b.name != rows[i].name
    ensures Ordered(rows) ==> Ordered(Removed(rows, i))
  {
    hide Less;
    if UniqueNames(rows) {
      RemovedMembers(rows, i);
    }
    var r := Removed(rows, i);
    assert forall k :: 0 <= k < |r| ==> r[k] == rows[if k < i then k else k + 1];
    if Ordered(rows) && 0 < i < |rows| - 1 {
      OrderedThroughout(rows, i - 1, i + 1);
    }
  }

  lemma {:induction false} ReplacedIsTidy(rows: seq<Artifact>, a: Artifact)
    ensures Tidy(rows) ==> Tidy(Replaced(rows, a))
  {
    hide Less, Replaced;
    ReplacedRows(rows, a);
  }

  lemma {:induction false} RemovedIsTidy(rows: seq<Artifact>, i: nat)
    requires i < |rows|
    ensures Tidy(rows) ==> Tidy(Removed(rows, i))
  {
    hide Less;
    RemovedRows(rows, i);
  }

  // ---- the disk ----

  datatype DiskState = DiskState(manifest: seq<Artifact>, images: map<string, seq<Byte>>)

  // Every row of the manifest on disk has its image, and every image is filed
  // under the hash of its bytes.
  ghost predicate Sound(s: DiskState, hash: seq<Byte> -> string) {
    && (forall a :: a in s.manifest ==> a.id in s.images)
    && (forall id :: id in s.images ==> hash(s.images[id]) == id)
  }

  // Image files no row refers to.
  ghost function Orphans(images: map<string, seq<Byte>>, rows: seq<Artifact>): set<string> {
    images.Keys - Ids(rows)
  }

  // Which of the file operations a call would make are refused.
  datatype Faults = Faults(image: bool, manifest: bool, removal: bool)

  // An absent manifest file is an empty manifest. Each file operation happens
  // or fails without effect.
  class Disk {
    var manifest: seq<Artifact>
    var images: map<string, seq<Byte>>
    ghost var past: seq<DiskState>

    ghost function State(): DiskState
      reads this
    {
      DiskState(manifest, images)
    }

    constructor (manifest: seq<Artifact>, images: map<string, seq<Byte>>)
      ensures State() == DiskState(manifest, images) && past == [State()]
    {
      this.manifest, this.images := manifest, images;
      past := [DiskState(manifest, images)];
    }

    method WriteImage(id: string, bytes: seq<Byte>, fails: bool) returns (ok: bool)
      modifies this
      ensures ok == !fails
      ensures manifest == old(manifest) && images == if ok then old(images)[id := bytes] else old(images)
      ensures past == old(past) + [State()]
    {
      ok := !fails;
      if ok {
        images := images[id := bytes];
      }
      past := past + [DiskState(manifest, images)];
    }

    method RemoveImage(id: string, fails: bool) returns (ok: bool)
      modifies this
      ensures ok == !fails
      ensures manifest == old(manifest) && images == if ok then old(images) - {id} else old(images)
      ensures past == old(past) + [State()]
    {
      ok := !fails;
      if ok {
        images := images - {id};
      }
      past := past + [DiskState(manifest, images)];
    }

    method WriteManifest(rows: seq<Artifact>, fails: bool) returns (ok: bool)
      modifies this
      ensures ok == !fails
      ensures images == old(images) && manifest == if ok then rows else old(manifest)
      ensures past == old(past) + [State()]
    {
      ok := !fails;
      if ok {
        manifest := rows;
      }
      past := past + [DiskState(manifest, images)];
    }
  }

  // ---- the store ----

  class Store {
    const disk: Disk
    const reader: Reader
    var rows: seq<Artifact>

    // Every state the disk was ever in is sound, and so are the rows in memory
    // (they can be ahead of the disk after a failed save).
    ghost predicate Valid()
      reads this, disk
    {
      && disk.State() in disk.past
      && (forall s :: s in disk.past ==> Sound(s, reader.hash))
      && (forall a :: a in rows ==> a.id in disk.images)
    }

    // Every manifest the disk ever held had unique names in order, and so do the
    // rows in memory.
    ghost predicate AllTidy()
      reads this, disk
    {
      Tidy(rows) && forall s :: s in disk.past ==> Tidy(s.manifest)
    }

    // Loads the store from the disk, as every command does.
    constructor (disk: Disk, reader: Reader)
      requires disk.State() in disk.past
      requires forall s :: s in disk.past ==> Sound(s, reader.hash)
      ensures Valid() && this.disk == disk && this.reader == reader && rows == disk.manifest
      ensures (forall s :: s in disk.past ==> Tidy(s.manifest)) ==> AllTidy()
    {
      this.disk, this.reader := disk, reader;
      rows := disk.manifest;
    }

    method Save(fails: bool) returns (ok: bool)
      requires Valid()
      modifies disk
      ensures Valid() && ok == !fails && disk.images == old(disk.images)
      ensures disk.manifest == if ok then rows else old(disk.manifest)
      ensures old(AllTidy()) ==> AllTidy()
    {
      hide Tidy;
      ok := disk.WriteManifest(rows, fails);
    }

    // Deletes an image file unless some row needs it; a failed deletion is
    // ignored.
    method DropUnused(id: string, fails: bool)
      requires Valid() && disk.manifest == rows
      modifies disk
      ensures Valid() && disk.manifest == old(disk.manifest)
      ensures disk.images == old(disk.images) - (if fails then {} else Unused(rows, id))
      ensures old(AllTidy()) ==> AllTidy()
    {
      hide Tidy;
      if !IsUsed(rows, id) {
        var discarded := disk.RemoveImage(id, fails);
      }
    }

    // Puts the artifact in place of the row of its name, if there is one, and
    // keeps the rows in order of name.
    method Replace(artifact: Artifact) returns (replaced: Option<Artifact>)
      requires Valid() && artifact.id in disk.images
      modifies `rows
      ensures Valid() && (old(AllTidy()) ==> AllTidy())
      ensures rows == Replaced(old(rows), artifact)
      ensures var at := IndexOf(old(rows), artifact.name);
              replaced == if at < |old(rows)| then Some(old(rows)[at]) else None
    {
      hide Less, SortedByName, Replaced, Tidy;
      ghost var before := rows;
      ReplacedIds(rows, artifact);
      ReplacedIsTidy(rows, artifact);
      var at := IndexOf(rows, artifact.name);
      replaced := if at < |rows| then Some(rows[at]) else None;
      rows := Replaced(rows, artifact);
      RowsHaveImages(before, rows, artifact, disk.images);
    }

    // Files an image under a name, replacing the row that had it, and deletes the
    // image of that row when no other row points at it. Refused for a bad name,
    // an unreadable or malformed file, or a refused write, and for nothing else;
    // a refused deletion is the one way a call that succeeds leaves an orphan.
    method Add(file: Option<seq<Byte>>, name: string, faults: Faults) returns (r: Result<Artifact>)
      requires Valid()
      modifies this, disk
      ensures Valid() && (old(AllTidy()) ==> AllTidy())
      ensures r == if !IsName(name) then Failed(InvalidName)
                   else if file.None? then Failed(ReadFailed)
                   else if reader.elf(file.value).None? then Failed(BadElf)
                   else if faults.image || faults.manifest then Failed(WriteFailed)
                   else Done(ArtifactOf(reader, file.value, name))
      ensures r.Done? ==>
                && r.value.id == reader.hash(file.value) && r.value.name == name
                && r.value.appStart == reader.elf(file.value).value.appStart
                && r.value.storage == reader.elf(file.value).value.storage
      ensures r.Done? ==> disk.manifest == rows == Replaced(old(rows), r.value)
      ensures r.Done? ==>
                disk.images == old(disk.images)[r.value.id := file.value]
                               - (if faults.removal then {} else DisplacedBy(old(rows), rows, name))
      ensures r.Done? ==>
                Orphans(disk.images, rows) <= Orphans(old(disk.images), old(rows))
                                              + (if faults.removal then DisplacedBy(old(rows), rows, name) else {})
      ensures r.Failed? ==> disk.manifest == old(disk.manifest)
      ensures r == Failed(WriteFailed) && !faults.image ==>
                file.Some? && disk.images == old(disk.images)[reader.hash(file.value) := file.value]
      ensures r.Failed? && (r.error != WriteFailed || faults.image) ==>
                disk.State() == old(disk.State()) && rows == old(rows)
    {
      hide Less, SortedByName, Replaced, IsName, Tidy, Orphans, DisplacedBy, Unused;
      if !IsName(name) {
        return Failed(InvalidName);
      }
      if file.None? {
        return Failed(ReadFailed);
      }
      var bytes := file.value;
      var image := reader.elf(bytes);
      if image.None? {
        return Failed(BadElf);
      }
      var artifact := Artifact(reader.hash(bytes), name, image.value.appStart, image.value.storage);
      var written := disk.WriteImage(artifact.id, bytes, faults.image);
      if !written {
        return Failed(WriteFailed);
      }
      ghost var before := rows;
      var replaced := Replace(artifact);
      var saved := Save(faults.manifest);
      if !saved {
        return Failed(WriteFailed);
      }
      if replaced.Some? && replaced.value.id != artifact.id {
        DropUnused(replaced.value.id, faults.removal);
      }
      ImagesAfterAdd(old(disk.images), before, artifact, bytes, faults.removal);
      return Done(artifact);
    }

    // Forgets a name. The image goes when no other row points at it. A name not
    // there changes nothing; a refused manifest write fails the call, and a
    // refused deletion is the one way a call that succeeds leaves an orphan.
    method Remove(name: string, faults: Faults) returns (r: Result<Option<Artifact>>)
      requires Valid()
      modifies this, disk
      ensures Valid() && (old(AllTidy()) ==> AllTidy())
      ensures var at := IndexOf(old(rows), name);
              && r == (if at == |old(rows)| then Done(None)
                       else if faults.manifest then Failed(WriteFailed)
                       else Done(Some(old(rows)[at])))
              && (at == |old(rows)| ==> disk.State() == old(disk.State()) && rows == old(rows))
              && (at < |old(rows)| && r.Done? ==> disk.manifest == rows == Removed(old(rows), at))
      ensures r.Done? && r.value.Some? ==>
                disk.images == old(disk.images) - (if faults.removal then {} else DisplacedBy(old(rows), rows, name))
      ensures r.Done? ==>
                Orphans(disk.images, rows) <= Orphans(old(disk.images), old(rows))
                                              + (if faults.removal then DisplacedBy(old(rows), rows, name) else {})
      ensures r.Failed? ==> disk.State() == old(disk.State())
    {
      hide Less, Tidy, Orphans, DisplacedBy, Unused;
      var at := IndexOf(rows, name);
      if at == |rows| {
        return Done(None);
      }
      var removed := rows[at];
      RemovedIds(rows, at);
      RemovedIsTidy(rows, at);
      assert removed in rows;
      rows := Removed(rows, at);
      var saved := Save(faults.manifest);
      if !saved {
        return Failed(WriteFailed);
      }
      DropUnused(removed.id, faults.removal);
      ImagesAfterRemove(old(disk.images), old(rows), at, faults.removal);
      return Done(Some(removed));
    }
  }

  // What the store records of an image filed under a name.
  function ArtifactOf(reader: Reader, bytes: seq<Byte>, name: string): Artifact
    requires reader.elf(bytes).Some?
  {
    var image := reader.elf(bytes).value;
    Artifact(reader.hash(bytes), name, image.appStart, image.storage)
  }

  // The image of the row a name had before, when no row after points at it.
  ghost function DisplacedBy(before: seq<Artifact>, after: seq<Artifact>, name: string): set<string> {
    var at := IndexOf(before, name);
    if at < |before| then Unused(after, before[at].id) else {}
  }

  ghost function Unused(rows: seq<Artifact>, id: string): set<string> {
    if id in Ids(rows) then {} else {id}
  }

  // Only the displaced image can become an orphan, and only if it is kept.
  lemma {:induction false} ImagesAfterAdd(
    images: map<string, seq<Byte>>, rows: seq<Artifact>, a: Artifact, bytes: seq<Byte>, kept: bool)
    ensures var at, rows' := IndexOf(rows, a.name), Replaced(rows, a);
            var displaced := DisplacedBy(rows, rows', a.name);
            var images' := images[a.id := bytes] - (if kept then {} else displaced);
            && displaced == (if at < |rows| && rows[at].id != a.id then Unused(rows', rows[at].id) else {})
            && Orphans(images', rows') <= Orphans(images, rows) + (if kept then displaced else {})
  {
    hide Replaced;
    ReplacedIds(rows, a);
  }

  lemma {:induction false} ImagesAfterRemove(images: map<string, seq<Byte>>, rows: seq<Artifact>, at: nat, kept: bool)
    requires at < |rows| && at == IndexOf(rows, rows[at].name)
    ensures var rows' := Removed(rows, at);
            var displaced := DisplacedBy(rows, rows', rows[at].name);
            var images' := images - (if kept then {} else displaced);
            && displaced == Unused(rows', rows[at].id)
            && Orphans(images', rows') <= Orphans(images, rows) + (if kept then displaced else {})
  {
    hide Removed;
    RemovedIds(rows, at);
  }

  predicate IsUsed(rows: seq<Artifact>, id: string)
    ensures IsUsed(rows, id) <==> id in Ids(rows)
  {
    exists i :: 0 <= i < |rows| && rows[i].id == id
  }

  lemma {:induction false} RowsHaveImages(
    before: seq<Artifact>, rows: seq<Artifact>, a: Artifact, images: map<string, seq<Byte>>)
    requires Ids(rows) <= Ids(before) + {a.id} && a.id in images
    requires forall b :: b in before ==> b.id in images
    ensures forall b :: b in rows ==> b.id in images
  {
    forall b | b in rows
      ensures b.id in images
    {
      assert b.id in Ids(rows);
    }
  }
}
