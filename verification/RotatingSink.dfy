/** rotating_file_sink as it runs (file_sinks.h): a running size, and files that are removed and renamed. */
module RotatingSink {
  import opened Wrappers
  import opened Decimal
  import opened RotatingLog
  import opened ArgList
  import opened FormatGrammar
  import opened FormatShown

  /** The files of a directory by name.  Every operation on them succeeds. */
  type Files = map<string, string>

  function CalcFilename(base: string, index: nat, ext: string): string {
    if index != 0 then base + "." + Numeral(index) + "." + ext else base + "." + ext
  }

  lemma CalcFilenameInjective(base: string, i: nat, j: nat, ext: string)
    requires CalcFilename(base, i, ext) == CalcFilename(base, j, ext)
    ensures i == j
  {
    if i != 0 && j != 0 {
      var name, other := CalcFilename(base, i, ext), CalcFilename(base, j, ext);
      assert |Numeral(i)| == |Numeral(j)|;
      var from, to := |base| + 1, |base| + 1 + |Numeral(i)|;
      assert name[from..to] == Numeral(i) && other[from..to] == Numeral(j);
      NumeralInjective(i, j);
    } else if i != j {
      assert false;
    }
  }

  lemma NameIs(base: string, index: nat, middle: string, ext: string)
    requires middle == "." + Numeral(index) + "."
    ensures CalcFilename(base, 0, ext) == base + ['.'] + ext
    ensures index > 0 ==> CalcFilename(base, index, ext) == base + middle + ext
  {
    assert base + "." + Numeral(index) + "." + ext == base + ("." + Numeral(index) + ".") + ext;
  }

  /** The name is the base name and the extension with a dot between them, or the formatted index between two dots. */
  lemma CalcFilenameIsFormatted(text: string, base: string, index: nat, ext: string)
    requires text == ".{}."
    ensures var r := Format(text, 0, [Arg(ULONG_LONG, index)]);
            && r.Ok?
            && CalcFilename(base, 0, ext) == base + ['.'] + ext
            && (index > 0 ==> CalcFilename(base, index, ext) == base + r.value.text + ext)
  {
    IndexBetweenDots(text, Arg(ULONG_LONG, index));
    NameIs(base, index, Format(text, 0, [Arg(ULONG_LONG, index)]).value.text, ext);
  }

  function FileAt(files: Files, name: string): Option<string> {
    if name in files then Some(files[name]) else None
  }

  function SlotsOf(files: Files, base: string, ext: string, n: nat): (slots: seq<Option<string>>)
    ensures |slots| == n
    ensures forall i :: 0 <= i < n ==> slots[i] == FileAt(files, CalcFilename(base, i, ext))
  {
    seq(n, i requires 0 <= i < n => FileAt(files, CalcFilename(base, i, ext)))
  }

  /** A file that belongs to no slot. */
  ghost predicate Foreign(name: string, base: string, ext: string, n: nat) {
    forall i :: 0 <= i < n ==> CalcFilename(base, i, ext) != name
  }

  ghost predicate SameElsewhere(before: Files, after: Files, base: string, ext: string, n: nat) {
    forall name :: Foreign(name, base, ext, n) ==> FileAt(after, name) == FileAt(before, name)
  }

  /** Writing the file of slot 0 changes slot 0 only. */
  lemma WriteSlot0(files: Files, base: string, ext: string, n: nat, text: string)
    requires n >= 1
    ensures SlotsOf(files[CalcFilename(base, 0, ext) := text], base, ext, n) ==
            SlotsOf(files, base, ext, n)[0 := Some(text)]
    ensures SameElsewhere(files, files[CalcFilename(base, 0, ext) := text], base, ext, n)
  {
    forall i | 0 < i < n ensures CalcFilename(base, i, ext) != CalcFilename(base, 0, ext) {
      if CalcFilename(base, i, ext) == CalcFilename(base, 0, ext) { CalcFilenameInjective(base, i, 0, ext); }
    }
  }

  class RotatingFileSink {
    const baseFilename: string
    const extension: string
    const maxSize: nat
    const maxFiles: nat
    var currentSize: nat
    /** The directory, which nobody else writes to. */
    var files: Files

    function Name(i: nat): string {
      CalcFilename(baseFilename, i, extension)
    }

    function View(): Sink
      reads this
    {
      Sink(maxSize, SlotsOf(files, baseFilename, extension, maxFiles + 1), currentSize)
    }

    predicate Valid()
      reads this
    {
      Opened(View())
    }

    constructor (base: string, ext: string, maxSize: nat, maxFiles: nat, directory: Files)
      ensures Valid() && View() == Open(maxSize, SlotsOf(directory, base, ext, maxFiles + 1))
      ensures baseFilename == base && extension == ext && this.maxSize == maxSize && this.maxFiles == maxFiles
      ensures SameElsewhere(directory, files, base, ext, maxFiles + 1)
    {
      baseFilename, extension, this.maxSize, this.maxFiles := base, ext, maxSize, maxFiles;
      var name := CalcFilename(base, 0, ext);
      files := if name in directory then directory else directory[name := ""];
      currentSize := if name in directory then |directory[name]| else 0;
      new;
      WriteSlot0(directory, base, ext, maxFiles + 1, Text(FileAt(directory, name)));
      assert files == directory[name := Text(FileAt(directory, name))];
    }

    /** The slot names are apart from each other. */
    lemma Apart(i: nat)
      ensures forall j: nat :: j != i ==> Name(j) != Name(i)
    {
      forall j: nat | j != i ensures Name(j) != Name(i) {
        if Name(j) == Name(i) { CalcFilenameInjective(baseFilename, j, i, extension); }
      }
    }

    /** The state of the directory when the loop of _rotate has arrived at `i`. */
    ghost predicate Shifting(before: Files, i: nat)
      reads this
    {
      && i <= maxFiles
      && (forall j: nat :: j < i || j == i == maxFiles ==> FileAt(files, Name(j)) == FileAt(before, Name(j)))
      && (i < maxFiles ==> FileAt(files, Name(i)) == None)
      && (forall j: nat :: i < j <= maxFiles ==> FileAt(files, Name(j)) == FileAt(before, Name(j - 1)))
      && SameElsewhere(before, files, baseFilename, extension, maxFiles + 1)
    }

    method Shift(ghost before: Files, i: nat)
      requires 0 < i && Shifting(before, i)
      modifies `files
      ensures Shifting(before, i - 1)
    {
      Apart(i - 1);
      Apart(i);
      var src, target := Name(i - 1), Name(i);
      if target in files {
        files := files - {target};
      }
      if src in files {
        files := (files - {src})[target := files[src]];
      }
    }

    lemma Shifted(before: Files)
      requires Shifting(before, 0)
      ensures var slots := SlotsOf(before, baseFilename, extension, maxFiles + 1);
              SlotsOf(files, baseFilename, extension, maxFiles + 1)[0 := Some("")] == Rotated(slots)
    {
      var slots := SlotsOf(before, baseFilename, extension, maxFiles + 1);
      forall j: nat | 0 < j <= maxFiles
        ensures SlotsOf(files, baseFilename, extension, maxFiles + 1)[j] == Rotated(slots)[j]
      {
        assert FileAt(files, Name(j)) == FileAt(before, Name(j - 1));
      }
    }

    method Rotate()
      modifies `files
      ensures View().slots == Rotated(old(View()).slots)
      ensures SameElsewhere(old(files), files, baseFilename, extension, maxFiles + 1)
    {
      var i := maxFiles;
      while i > 0
        invariant Shifting(old(files), i)
      {
        Shift(old(files), i);
        i := i - 1;
      }
      Shifted(old(files));
      WriteSlot0(files, baseFilename, extension, maxFiles + 1, "");
      files := files[Name(0) := ""];
    }

    method SinkIt(msg: string)
      requires Valid()
      modifies `files, `currentSize
      ensures Valid() && View() == Log(old(View()), msg)
      ensures SameElsewhere(old(files), files, baseFilename, extension, maxFiles + 1)
    {
      currentSize := currentSize + |msg|;
      if currentSize > maxSize {
        Rotate();
        currentSize := |msg|;
      }
      assert View().slots[0] == FileAt(files, Name(0)) && "" + msg == msg;
      WriteSlot0(files, baseFilename, extension, maxFiles + 1, files[Name(0)] + msg);
      files := files[Name(0) := files[Name(0)] + msg];
    }
  }
}
