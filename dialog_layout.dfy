/** The browse-button kinds of the dialog layout helpers and the dirty-flag
    state of the options dialog. */
module DialogLayout {

  /** The kinds of browse buttons, in declaration order. */
  datatype BtnKind =
    | FileBtn | FileNewBtn | FileSaveBtn
    | FileOrDirBtn | FileOrDirNewBtn | FileOrDirSaveBtn
    | DirBtn | ColorBtn | FontBtn | FolderBtn

  /** The number of enumerators. */
  const KindCount: nat := 10

  /** The value of each enumerator. */
  function Ordinal(k: BtnKind): (n: nat)
    ensures n < KindCount
  {
    match k
    case FileBtn => 0
    case FileNewBtn => 1
    case FileSaveBtn => 2
    case FileOrDirBtn => 3
    case FileOrDirNewBtn => 4
    case FileOrDirSaveBtn => 5
    case DirBtn => 6
    case ColorBtn => 7
    case FontBtn => 8
    case FolderBtn => 9
  }

  /** The cast from an integer back to the enumeration. */
  function FromOrdinal(n: nat): (k: BtnKind)
    requires n < KindCount
    ensures Ordinal(k) == n
  {
    if n == 0 then FileBtn
    else if n == 1 then FileNewBtn
    else if n == 2 then FileSaveBtn
    else if n == 3 then FileOrDirBtn
    else if n == 4 then FileOrDirNewBtn
    else if n == 5 then FileOrDirSaveBtn
    else if n == 6 then DirBtn
    else if n == 7 then ColorBtn
    else if n == 8 then FontBtn
    else FolderBtn
  }

  /** Distinct enumerators have distinct values. */
  lemma OrdinalInjective(a: BtnKind, b: BtnKind)
    requires Ordinal(a) == Ordinal(b)
    ensures a == b
  {
    assert FromOrdinal(Ordinal(a)) == a;
  }

  /** The offset GetBtnType adds to its base kind. */
  function Offset(open: bool, existing: bool): nat
  {
    if open then (if existing then 0 else 1) else 2
  }

  /** GetBtnType: the base kind shifted by 0 (open an existing file), 1 (open
      any file) or 2 (save). The cast is defined only when the shifted value
      is still an enumerator. */
  function GetBtnType(base: BtnKind, open: bool, existing: bool): (k: BtnKind)
    requires Ordinal(base) + Offset(open, existing) < KindCount
    ensures Ordinal(base) <= Ordinal(k) <= Ordinal(base) + 2
    ensures Ordinal(k) == Ordinal(base) <==> open && existing
    ensures Ordinal(k) == Ordinal(base) + 1 <==> open && !existing
    ensures Ordinal(k) == Ordinal(base) + 2 <==> !open
  {
    FromOrdinal(Ordinal(base) + Offset(open, existing))
  }

  /** The file kinds: open-existing, open-any and save, in that order. */
  lemma FileBtnKinds(open: bool, existing: bool)
    ensures GetBtnType(FileBtn, open, existing) ==
      if !open then FileSaveBtn else if existing then FileBtn else FileNewBtn
  {
    var k := GetBtnType(FileBtn, open, existing);
    if !open {
      OrdinalInjective(k, FileSaveBtn);
    } else if existing {
      OrdinalInjective(k, FileBtn);
    } else {
      OrdinalInjective(k, FileNewBtn);
    }
  }

  /** The file-or-directory kinds, in the same order. */
  lemma FileOrDirBtnKinds(open: bool, existing: bool)
    ensures GetBtnType(FileOrDirBtn, open, existing) ==
      if !open then FileOrDirSaveBtn else if existing then FileOrDirBtn else FileOrDirNewBtn
  {
    var k := GetBtnType(FileOrDirBtn, open, existing);
    if !open {
      OrdinalInjective(k, FileOrDirSaveBtn);
    } else if existing {
      OrdinalInjective(k, FileOrDirBtn);
    } else {
      OrdinalInjective(k, FileOrDirNewBtn);
    }
  }

  /** Saving ignores whether the file must exist; opening does not. */
  lemma GetBtnTypeDistinguishes(base: BtnKind, o1: bool, e1: bool, o2: bool, e2: bool)
    requires Ordinal(base) + Offset(o1, e1) < KindCount
    requires Ordinal(base) + Offset(o2, e2) < KindCount
    ensures GetBtnType(base, o1, e1) == GetBtnType(base, o2, e2) <==>
      o1 == o2 && (o1 ==> e1 == e2)
  {
    if o1 == o2 && (o1 ==> e1 == e2) {
      assert Offset(o1, e1) == Offset(o2, e2);
    }
  }

  /** The kind CreateFileEntry asks for. */
  function FileEntryKind(open: bool, existingOnly: bool): (k: BtnKind)
    ensures k in {FileBtn, FileNewBtn, FileSaveBtn}
  {
    FileBtnKinds(open, existingOnly);
    GetBtnType(FileBtn, open, existingOnly)
  }

  /** The kind CreateFileOrDirEntry asks for. */
  function FileOrDirEntryKind(open: bool, existingOnly: bool): (k: BtnKind)
    ensures k in {FileOrDirBtn, FileOrDirNewBtn, FileOrDirSaveBtn}
  {
    FileOrDirBtnKinds(open, existingOnly);
    GetBtnType(FileOrDirBtn, open, existingOnly)
  }

  /** The flags of the options dialog and the controls they drive. */
  class OptionsEditDialog {
    /** Something was changed in the dialog. */
    var dirty: bool
    /** Something important changed: the settings must be tested. */
    var test: bool
    /** Some setting takes effect only after a restart. */
    var restartWarning: bool
    var okEnabled: bool
    var applyEnabled: bool
    /** The notebook's selected page. */
    var selection: int

    constructor(page: int)
      ensures !dirty && !test && !restartWarning
      ensures selection == page
    {
      dirty := false;
      test := false;
      restartWarning := false;
      okEnabled := true;
      applyEnabled := false;
      selection := page;
    }

    /** HasChanges. */
    predicate HasChanges()
      reads this
    {
      dirty
    }

    /** SetNotebookPage: -1 leaves the selection alone. */
    method SetNotebookPage(page: int)
      modifies this
      ensures selection == if page == -1 then old(selection) else page
      ensures dirty == old(dirty) && test == old(test) && restartWarning == old(restartWarning)
      ensures okEnabled == old(okEnabled) && applyEnabled == old(applyEnabled)
    {
      if page != -1 {
        selection := page;
      }
    }

    /** EnableButtons: Ok and Apply follow enable. */
    method EnableButtons(enable: bool)
      modifies this
      ensures okEnabled == enable && applyEnabled == enable
      ensures dirty == old(dirty) && test == old(test) && restartWarning == old(restartWarning)
      ensures selection == old(selection)
    {
      okEnabled := enable;
      applyEnabled := enable;
    }

    /** SetDirty: marks the dialog changed and enables its buttons. */
    method SetDirty()
      modifies this
      ensures dirty && okEnabled && applyEnabled
      ensures test == old(test) && restartWarning == old(restartWarning)
      ensures selection == old(selection)
    {
      dirty := true;
      EnableButtons(true);
    }

    /** SetDoTest: SetDirty, and the changes must be tested. */
    method SetDoTest()
      modifies this
      ensures dirty && test && okEnabled && applyEnabled
      ensures restartWarning == old(restartWarning)
      ensures selection == old(selection)
    {
      SetDirty();
      test := true;
    }

    /** SetGiveRestartWarning: only the restart flag is set. */
    method SetGiveRestartWarning()
      modifies this
      ensures restartWarning
      ensures dirty == old(dirty) && test == old(test)
      ensures okEnabled == old(okEnabled) && applyEnabled == old(applyEnabled)
      ensures selection == old(selection)
    {
      restartWarning := true;
    }

    /** ResetDirty: all three flags cleared together, Apply disabled. */
    method ResetDirty()
      modifies this
      ensures !dirty && !test && !restartWarning && !applyEnabled
      ensures okEnabled == old(okEnabled)
      ensures selection == old(selection)
    {
      test := false;
      restartWarning := false;
      dirty := false;
      applyEnabled := false;
    }
  }
}
