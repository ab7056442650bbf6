/** The session registry of templates/src/disk.ts, templates/src/memory.ts
    and src/disk.ts: disks and memories kept under their trimmed,
    lower-cased names, files added to disks that are not yet exported, and
    the exports themselves. A missing or mistyped template argument is
    `None`. */
module Registry {
  import opened Wrappers
  import opened Float
  import opened Util
  import opened Strings
  import opened DiskLayout
  import opened MemoryLayout

  /** "A disk with the name "<name>" already exists!" */
  function DiskExists(name: string): Message
  {
    "A disk with the name \"" + name + "\" already exists!"
  }

  /** "A disk with the name "<name>" does not exist!" */
  function NoSuchDisk(name: string): Message
  {
    "A disk with the name \"" + name + "\" does not exist!"
  }

  /** "Disk "<name>" has already been exported!" */
  function DiskExported(name: string): Message
  {
    "Disk \"" + name + "\" has already been exported!"
  }

  /** "A memory with the name "<name>" already exists!" */
  function MemoryExists(name: string): Message
  {
    "A memory with the name \"" + name + "\" already exists!"
  }

  /** "A memory with the name "<name>" does not exist!" */
  function NoSuchMemory(name: string): Message
  {
    "A memory with the name \"" + name + "\" does not exist!"
  }

  /** The names the `in` checks find on every registry through
      Object.prototype and that survive trimming and lower-casing: to the
      source these are always taken, though no disk or memory is stored
      under them. */
  const Inherited: set<string> := {"constructor", "__proto__"}

  /** The host's TypeError, thrown when an inherited name is used as a disk
      or a memory; its text is the engine's. */
  const HostTypeError: Message := "TypeError"

  /** The message `Disk.export` throws. */
  function ExportMessage(e: DiskError): Message
  {
    e.name + " exceeds the maximum name length!"
  }

  /** `state.calculatoros`: the disks and memories registered so far. */
  class Session {
    var disks: map<string, Disk>
    var memory: map<string, Memory>

    /** Every disk sits under its own name, no disk object is registered
        twice, and nothing is stored under an inherited name. */
    ghost predicate Valid()
      reads this, disks.Values
    {
      && (forall n :: n in disks ==> disks[n].name == n && n !in Inherited)
      && (forall n :: n in memory ==> n !in Inherited)
      && (forall a, b :: a in disks && b in disks && a != b ==> disks[a] != disks[b])
    }

    /** `ensureState`: empty registries. */
    constructor ()
      ensures Valid()
      ensures disks == map[] && memory == map[]
    {
      disks := map[];
      memory := map[];
    }

    /** `registerDisk!(name, bytes)`, the same in templates/src/disk.ts and
        src/disk.ts: a new, empty, unlocked disk under the normalised name,
        unless that name is taken or inherited. */
    method RegisterDisk(name: Option<string>, size: Option<int>) returns (r: Result<string, Message>)
      requires Valid()
      modifies this
      ensures Valid() && memory == old(memory)
      ensures name.None? ==> r == Failure("A disk name is required!")
      ensures name.Some? && size.None? ==> r == Failure("A disk byte size is required!")
      ensures name.Some? && size.Some? && (Normalize(name.value) in old(disks) || Normalize(name.value) in Inherited) ==>
                r == Failure(DiskExists(Normalize(name.value)))
      ensures r.Failure? ==> disks == old(disks)
      ensures r.Success? <==>
                name.Some? && size.Some? && Normalize(name.value) !in old(disks) && Normalize(name.value) !in Inherited
      ensures r.Success? ==>
                var key := Normalize(name.value);
                && r.value == ""
                && disks.Keys == old(disks.Keys) + {key}
                && (forall n :: n in old(disks) ==> disks[n] == old(disks[n]))
                && fresh(disks[key])
                && disks[key].name == key && disks[key].size == size.value
                && disks[key].files == [] && !disks[key].locked
    {
      if name.None? {
        return Failure("A disk name is required!");
      }
      var key := Normalize(name.value);
      if size.None? {
        return Failure("A disk byte size is required!");
      }
      if key in disks || key in Inherited {
        return Failure(DiskExists(key));
      }
      var d := new Disk(key, size.value);
      disks := disks[key := d];
      r := Success("");
    }

    /** The part `addFileString` and `addFileBytes` share once their
        arguments are read: the disk must exist and not be exported; the
        file then takes its name's place, or the last place if new. An
        inherited name passes the existence check and then has no file
        table to write to. */
    method PutFile(key: string, file: File) returns (r: Result<string, Message>)
      requires Valid()
      modifies disks.Values
      ensures Valid()
      ensures key !in disks && key !in Inherited ==> r == Failure(NoSuchDisk(key))
      ensures key in Inherited ==> r == Failure(HostTypeError)
      ensures key in disks && old(disks[key].locked) ==> r == Failure(DiskExported(key))
      ensures r.Failure? ==> forall n :: n in disks ==> disks[n].files == old(disks[n].files)
      ensures r.Success? <==> key in disks && !old(disks[key].locked)
      ensures r.Success? ==> r.value == "" && disks[key].files == Store(old(disks[key].files), file)
      ensures forall n :: n in disks && n != key ==> disks[n].files == old(disks[n].files)
      ensures forall n :: n in disks ==>
                disks[n].locked == old(disks[n].locked) && disks[n].name == old(disks[n].name) && disks[n].size == old(disks[n].size)
    {
      if key in Inherited {
        return Failure(HostTypeError);
      }
      if key !in disks {
        return Failure(NoSuchDisk(key));
      }
      var d := disks[key];
      if d.locked {
        return Failure(DiskExported(key));
      }
      d.files := Store(d.files, file);
      r := Success("");
    }

    /** `addFileString!(disk, name, data)`: stores the words of the data's
        character codes under the file's normalised name. */
    method AddFileString(disk: Option<string>, name: Option<string>, data: Option<string>)
      returns (r: Result<string, Message>)
      requires Valid()
      modifies disks.Values
      ensures Valid()
      ensures disk.None? ==> r == Failure("A disk name is required!")
      ensures disk.Some? && name.None? ==> r == Failure("A file name is required!")
      ensures disk.Some? && name.Some? && data.None? ==> r == Failure("Disk data is required!")
      ensures disk.Some? && name.Some? && data.Some? ==>
                var key := Normalize(disk.value);
                && (key !in disks && key !in Inherited ==> r == Failure(NoSuchDisk(key)))
                && (key in Inherited ==> r == Failure(HostTypeError))
                && (key in disks && old(disks[key].locked) ==> r == Failure(DiskExported(key)))
                && (r.Success? <==> key in disks && !old(disks[key].locked))
                && (r.Success? ==>
                      disks[key].files == Store(old(disks[key].files), File(Normalize(name.value), Encode(CharCodes(data.value)))))
                && (forall n :: n in disks && n != key ==> disks[n].files == old(disks[n].files))
      ensures r.Failure? ==> forall n :: n in disks ==> disks[n].files == old(disks[n].files)
      ensures forall n :: n in disks ==>
                disks[n].locked == old(disks[n].locked) && disks[n].name == old(disks[n].name) && disks[n].size == old(disks[n].size)
    {
      if disk.None? {
        return Failure("A disk name is required!");
      }
      var key := Normalize(disk.value);
      if name.None? {
        return Failure("A file name is required!");
      }
      var fileName := Normalize(name.value);
      if data.None? {
        return Failure("Disk data is required!");
      }
      var words := FromManyBytes(CharCodes(data.value), 0);
      r := PutFile(key, File(fileName, words));
    }

    /** `addFileBytes!(disk, name, data)`: stores the parsed list as given
        under the file's normalised name. */
    method AddFileBytes(disk: Option<string>, name: Option<string>, data: Option<seq<int>>)
      returns (r: Result<string, Message>)
      requires Valid()
      modifies disks.Values
      ensures Valid()
      ensures disk.None? ==> r == Failure("A disk name is required!")
      ensures disk.Some? && name.None? ==> r == Failure("A file name is required!")
      ensures disk.Some? && name.Some? && data.None? ==> r == Failure("Disk data is required!")
      ensures disk.Some? && name.Some? && data.Some? ==>
                var key := Normalize(disk.value);
                && (key !in disks && key !in Inherited ==> r == Failure(NoSuchDisk(key)))
                && (key in Inherited ==> r == Failure(HostTypeError))
                && (key in disks && old(disks[key].locked) ==> r == Failure(DiskExported(key)))
                && (r.Success? <==> key in disks && !old(disks[key].locked))
                && (r.Success? ==> disks[key].files == Store(old(disks[key].files), File(Normalize(name.value), data.value)))
                && (forall n :: n in disks && n != key ==> disks[n].files == old(disks[n].files))
      ensures r.Failure? ==> forall n :: n in disks ==> disks[n].files == old(disks[n].files)
      ensures forall n :: n in disks ==>
                disks[n].locked == old(disks[n].locked) && disks[n].name == old(disks[n].name) && disks[n].size == old(disks[n].size)
    {
      if disk.None? {
        return Failure("A disk name is required!");
      }
      var key := Normalize(disk.value);
      if name.None? {
        return Failure("A file name is required!");
      }
      var fileName := Normalize(name.value);
      if data.None? {
        return Failure("Disk data is required!");
      }
      r := PutFile(key, File(fileName, data.value));
    }

    /** `exportDisk!(name)`: locks the disk, then exports it. The lock is
        set first, so it holds even when the export throws, and exporting
        again is allowed. */
    method ExportDisk(name: Option<string>) returns (r: Result<DiskImage, Message>)
      requires Valid()
      modifies disks.Values
      ensures Valid()
      ensures forall n :: n in disks ==>
                disks[n].files == old(disks[n].files) && disks[n].name == old(disks[n].name) && disks[n].size == old(disks[n].size)
      ensures name.None? ==> r == Failure("A disk name is required!")
      ensures name.Some? && Normalize(name.value) !in disks && Normalize(name.value) !in Inherited ==>
                r == Failure(NoSuchDisk(Normalize(name.value)))
      ensures name.Some? && Normalize(name.value) in Inherited ==> r == Failure(HostTypeError)
      ensures name.Some? && Normalize(name.value) in disks ==>
                var d := disks[Normalize(name.value)];
                && d.locked
                && r == match Image(TemplatesLayout, old(d.files), old(d.size))
                        case Success(img) => Success(img)
                        case Failure(e) => Failure(ExportMessage(e))
      ensures forall n :: n in disks && (name.None? || n != Normalize(name.value)) ==>
                disks[n].locked == old(disks[n].locked)
    {
      if name.None? {
        return Failure("A disk name is required!");
      }
      var key := Normalize(name.value);
      if key in Inherited {
        return Failure(HostTypeError);
      }
      if key !in disks {
        return Failure(NoSuchDisk(key));
      }
      var d := disks[key];
      d.locked := true;
      var img := d.Export(TemplatesLayout);
      if img.Failure? {
        return Failure(ExportMessage(img.error));
      }
      r := Success(img.value);
    }

    /** `registerMemory!(name, bytes)`: a `Memory(name, size)` under the
        normalised name, unless that name is taken or inherited. */
    method RegisterMemory(name: Option<string>, size: Option<int>) returns (r: Result<string, Message>)
      requires Valid()
      modifies this
      ensures Valid()
      ensures disks == old(disks)
      ensures name.None? ==> r == Failure("A memory name is required!")
      ensures name.Some? && size.None? ==> r == Failure("A memory byte size is required!")
      ensures name.Some? && size.Some? && (Normalize(name.value) in old(memory) || Normalize(name.value) in Inherited) ==>
                r == Failure(MemoryExists(Normalize(name.value)))
      ensures r.Failure? ==> memory == old(memory)
      ensures r.Success? <==>
                name.Some? && size.Some? && Normalize(name.value) !in old(memory) && Normalize(name.value) !in Inherited
      ensures r.Success? ==>
                r.value == "" &&
                memory == old(memory)[Normalize(name.value) := Memory(Normalize(name.value), size.value)]
    {
      if name.None? {
        return Failure("A memory name is required!");
      }
      var key := Normalize(name.value);
      if size.None? {
        return Failure("A memory byte size is required!");
      }
      if key in memory || key in Inherited {
        return Failure(MemoryExists(key));
      }
      memory := memory[key := Memory(key, size.value)];
      r := Success("");
    }

    /** `exportMemory!(name)`: the export of the memory under the
        normalised name; the registry is left as it was. */
    method ExportMemory(name: Option<string>) returns (r: Result<MemoryImage, Message>)
      requires Valid()
      ensures name.None? ==> r == Failure("A memory name is required!")
      ensures name.Some? && Normalize(name.value) !in memory && Normalize(name.value) !in Inherited ==>
                r == Failure(NoSuchMemory(Normalize(name.value)))
      ensures name.Some? && Normalize(name.value) in Inherited ==> r == Failure(HostTypeError)
      ensures name.Some? && Normalize(name.value) in memory ==>
                r == Success(MemoryImageOf(memory[Normalize(name.value)]))
    {
      if name.None? {
        return Failure("A memory name is required!");
      }
      var key := Normalize(name.value);
      if key in Inherited {
        return Failure(HostTypeError);
      }
      if key !in memory {
        return Failure(NoSuchMemory(key));
      }
      var img := MemoryLayout.Export(memory[key]);
      r := Success(img);
    }
  }

  /** "Once this is run, no more files can be added to the disk": after
      `exportDisk!` on a registered disk, whether or not its export throws,
      `addFileString!` on the same disk fails and changes no file. */
  method ExportThenAddFile(s: Session, disk: string, file: string, data: string)
    returns (exported: Result<DiskImage, Message>, added: Result<string, Message>)
    requires s.Valid() && Normalize(disk) in s.disks
    modifies s.disks.Values
    ensures added == Failure(DiskExported(Normalize(disk)))
    ensures s.disks[Normalize(disk)].files == old(s.disks[Normalize(disk)].files)
  {
    exported := s.ExportDisk(Some(disk));
    added := s.AddFileString(Some(disk), Some(file), Some(data));
  }
}
