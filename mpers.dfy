/** Persistent message boxes: each declared box gets the next id from a
    counter, in declaration order, and its id indexes the table of names and
    descriptions the options dialog shows. */
module Mpers {

  /** One row of the table: the name stored in the configuration and the
      description shown to the user. */
  datatype Entry = Entry(name: string, desc: string)

  /** The table of boxes, in declaration order, as built with OS_UNIX set
      and USE_DIALUP unset (the rows under "#if 0" are not part of it). */
  const Table: seq<Entry> := [
    Entry("AskSpecifyDir", "prompt for global directory if not found"),
    Entry("AskRunAsRoot", "warn if Mahogany is run as root"),
    Entry("SendOutboxOnExit", "ask whether to send unsent messages on exit"),
    Entry("AbandonCriticalFolders", "prompt before abandoning critical folders "),
    Entry("GoOnlineToSendOutbox", "ask whether to go online to send Outbox"),
    Entry("FixTemplate", "propose to fix template with errors"),
    Entry("AskForSig", "ask for signature if none found"),
    Entry("UnsavedCloseAnyway", "propose to save message before closing"),
    Entry("MessageSent", "show notification after sending the message"),
    Entry("AskForExtEdit", "propose to change external editor settings if unset"),
    Entry("MimeTypeCorrect", "ask confirmation for guessed MIME types"),
    Entry("ConfigNetFromCompose", "propose to configure network settings before sending the message if necessary"),
    Entry("SendemptySubject", "ask confirmation before sending messages without subject"),
    Entry("ConfirmFolderDelete", "ask confirmation before removing folder from the folder tree"),
    Entry("ConfirmFolderPhysDelete", "ask confirmation before deleting folder with its contents"),
    Entry("MarkRead", "ask whether to mark all articles as read before closing folder"),
    Entry("ConfirmExit", "ask confirmation before exiting the program"),
    Entry("AskLogin", "ask for the login name when opening the folder if required"),
    Entry("AskPwd", "ask for the password when opening the folder if required"),
    Entry("GoOfflineSendFirst", "propose to send outgoing messages before hanging up"),
    Entry("OpenUnaccessibleFolder", "warn before trying to reopen folder which couldn't be opened the last time"),
    Entry("ChangeUnaccessibleFolderSettings", "propose to change settings of a folder which couldn't be opened the last time before reopening it"),
    Entry("AskUrlBrowser", "ask for the WWW browser if it was not configured"),
    Entry("OptTestAsk", "propose to test new settings after changing any important ones"),
    Entry("WarnRestartOpt", "warn if some options changes don't take effect until program restart"),
    Entry("SaveTemplate", "propose to save changed template before closing it"),
    Entry("MailNoNetQueuedMessage", "show notification if the message is queued in Outbox and not sent out immediately"),
    Entry("MailQueuedMessage", "show notification for queued messages"),
    Entry("MailSentMessage", "show notification for sent messages"),
    Entry("TestMailSent", "show successful test message"),
    Entry("AdbDeleteEntry", "ask for confirmation before deleting the address book entries"),
    Entry("ConfirmAdbImporter", "ask for confirmation before importing unrecognized address book files"),
    Entry("ModulesWarning", "warning that module changes take effect only after restart"),
    Entry("BbdbSaveDialog", "ask for confirmation before saving address books in BBDB format"),
    Entry("FolderGroupHint", "show explanation after creating a folder group"),
    Entry("SignatureTooLong", "warn if signature is longer than netiquette recommends"),
    Entry("RememberPwd", "propose to permanently remember passwords entered interactively"),
    Entry("KeepPwd", "propose to keep passwords entered interactively for the duration of this session"),
    Entry("ShowLogWinHint", "show the hint about reopening the log window when it is being closed"),
    Entry("AutoExpunge", "ask to expunge deleted messages before closing the folder"),
    Entry("SuspendAutoCollectFolder", "ask to suspend auto-collecting messages from failed incoming folder"),
    Entry("FilterReplace", "ask whether to replace filter when adding a new filter"),
    Entry("AddAllSubfolders", "create all subfolders automatically instead of browsing them"),
    Entry("StoreRemoteNow", "question whether to store remote configuration from options dialog"),
    Entry("GetRemoteNow", "question whether to retrieve remote configuration from options dialog"),
    Entry("OverwriteRemote", "ask before overwriting remote configuration settings"),
    Entry("RetrieveRemote", "question whether to retrieve remote settings at startup"),
    Entry("StoreRemote", "question whether to store remote settings at shutdown"),
    Entry("StoredRemote", "confirmation that remote config was saved"),
    Entry("ExplainGlobalPasswd", "show explanation before asking for global password"),
    Entry("FilterNotUsedYet", "warn that newly created filter is unused"),
    Entry("FilterOverwrite", "ask confirmation before overwriting a filter with another one"),
    Entry("ImportUnderRoot", "ask where do you want to import folders"),
    Entry("MoveExpungeConfirm", "confirm expunging messages after moving"),
    Entry("ApplyQuickFilter", "propose to apply quick filter after creation"),
    Entry("BrowseImapServers", "propose to get all folders from IMAP server"),
    Entry("GfxNotInlined", "ask if big images should be inlined"),
    Entry("EditOnOpenFail", "propose to edit folder settings if opening it failed"),
    Entry("ExplainColClick", "give explanation when clicking on a column in the folder view"),
    Entry("ViewerBarTip", "give tip about reenabling the viewer bar when closing it"),
    Entry("EmptyTrashOnExit", "ask whether to purge trash folder on exit"),
    Entry("SendOffline", "send mail when the system is offline")
  ]

  /** The number of boxes declared before M_MSGBOX_MAX, with the same
      configuration. */
  const DeclaredCount: nat := 62

  /** The counter behind NewMPersMsgBox: the id the next box gets. */
  class IdCounter {
    var last: nat

    constructor()
      ensures last == 0
    {
      last := 0;
    }

    /** NewMPersMsgBox: hands out the counter's value and increments it. */
    method NewMPersMsgBox() returns (id: nat)
      modifies this
      ensures id == old(last) && last == old(last) + 1
    {
      id := last;
      last := last + 1;
    }
  }

  /** A persistent message box; its id is fixed at construction. */
  class MPersMsgBox {
    const id: nat

    constructor(counter: IdCounter)
      modifies counter
      ensures id == old(counter.last) && counter.last == old(counter.last) + 1
    {
      var n := counter.NewMPersMsgBox();
      id := n;
    }
  }

  /** The static initialisation of the declared boxes and then M_MSGBOX_MAX,
      in declaration order: box i gets the i-th id handed out. */
  method DeclareAll(counter: IdCounter) returns (boxes: seq<MPersMsgBox>, max: MPersMsgBox)
    modifies counter
    ensures |boxes| == DeclaredCount
    ensures forall i :: 0 <= i < |boxes| ==> boxes[i].id == old(counter.last) + i
    ensures max.id == old(counter.last) + DeclaredCount
    ensures counter.last == old(counter.last) + DeclaredCount + 1
  {
    boxes := [];
    while |boxes| < DeclaredCount
      invariant |boxes| <= DeclaredCount
      invariant counter.last == old(counter.last) + |boxes|
      invariant forall i :: 0 <= i < |boxes| ==> boxes[i].id == old(counter.last) + i
    {
      var box := new MPersMsgBox(counter);
      boxes := boxes + [box];
    }
    max := new MPersMsgBox(counter);
  }

  /** The declarations and the table are in sync: M_MSGBOX_MAX's id, counted
      from the first id, is the number of table rows. */
  lemma DeclarationsMatchTable()
    ensures DeclaredCount == |Table|
  {
  }

  /** Boxes declared one after the other have distinct ids. */
  lemma {:induction false} ConsecutiveIdsDistinct(boxes: seq<MPersMsgBox>, first: nat)
    requires forall i :: 0 <= i < |boxes| ==> boxes[i].id == first + i
    ensures forall i, j :: 0 <= i < j < |boxes| ==> boxes[i].id < boxes[j].id
  {
    forall i, j | 0 <= i < j < |boxes|
      ensures boxes[i].id < boxes[j].id
    {
      assert boxes[i].id == first + i;
      assert boxes[j].id == first + j;
    }
  }

  /** GetPersMsgBoxName: the name in the table row of the box's id. */
  function GetPersMsgBoxName(box: MPersMsgBox): (name: string)
    requires box.id < |Table|
  {
    Table[box.id].name
  }

  /** The description of the first row of t named name, or "" when there is
      none. */
  function FirstDesc(t: seq<Entry>, name: string): (d: string)
    ensures d != [] ==> exists e <- t :: e.name == name && e.desc == d
    ensures (forall e <- t :: e.name != name) ==> d == []
  {
    if t == [] then []
    else if t[0].name == name then t[0].desc
    else FirstDesc(t[1..], name)
  }

  /** What GetPersMsgBoxHelp returns when scanning table t: the description
      found, or "unknown (<name>)" when none was found or it was empty.
      Translation of the texts is not modelled. */
  function HelpIn(t: seq<Entry>, name: string): string
  {
    var d := FirstDesc(t, name);
    if d == [] then "unknown (" + name + ")" else d
  }

  /** The scan of GetPersMsgBoxHelp over a table t: stops at the first row
      named name. */
  method ScanHelp(t: seq<Entry>, name: string) returns (s: string)
    ensures s == HelpIn(t, name)
  {
    s := [];
    var n := 0;
    while n < |t|
      invariant 0 <= n <= |t|
      invariant FirstDesc(t, name) == if s != [] then s else FirstDesc(t[n..], name)
      invariant s == [] || n == |t|
    {
      assert t[n..][1..] == t[n + 1..];
      if t[n].name == name {
        s := t[n].desc;
        n := |t|;
      } else {
        n := n + 1;
      }
    }
    if s == [] {
      s := "unknown (" + name + ")";
    }
  }

  /** GetPersMsgBoxHelp: the scan over the box table. */
  method GetPersMsgBoxHelp(name: string) returns (s: string)
    ensures s == HelpIn(Table, name)
  {
    s := ScanHelp(Table, name);
  }

  /** The scan returns the description of the first row named name when that
      description is non-empty: rows before it are skipped whatever they
      hold, rows after it are never looked at. */
  lemma {:induction false} HelpOfFirstRow(t: seq<Entry>, i: nat, name: string)
    requires i < |t| && t[i].name == name && t[i].desc != []
    requires forall k :: 0 <= k < i ==> t[k].name != name
    ensures HelpIn(t, name) == t[i].desc
  {
    FirstDescOfFirstRow(t, i, name);
  }

  lemma {:induction false} FirstDescOfFirstRow(t: seq<Entry>, i: nat, name: string)
    requires i < |t| && t[i].name == name
    requires forall k :: 0 <= k < i ==> t[k].name != name
    ensures FirstDesc(t, name) == t[i].desc
  {
    if i > 0 {
      assert t[0].name != name;
      FirstDescOfFirstRow(t[1..], i - 1, name);
    }
  }

  /** With distinct names, the help of row i's name is row i's description
      (when it has one). */
  lemma HelpOfRowName(t: seq<Entry>, i: nat)
    requires i < |t| && t[i].desc != []
    requires forall k, j :: 0 <= k < j < |t| ==> t[k].name != t[j].name
    ensures HelpIn(t, t[i].name) == t[i].desc
  {
    HelpOfFirstRow(t, i, t[i].name);
  }

  /** From a box to its description: the help of a box's name is the
      description of the box's row, when no earlier row has that name and
      the description is not empty. */
  lemma HelpOfBoxName(box: MPersMsgBox)
    requires box.id < |Table| && Table[box.id].desc != []
    requires forall k :: 0 <= k < box.id ==> Table[k].name != Table[box.id].name
    ensures HelpIn(Table, GetPersMsgBoxName(box)) == Table[box.id].desc
  {
    HelpOfFirstRow(Table, box.id, Table[box.id].name);
  }

  /** A name no row has yields "unknown (<name>)". */
  lemma {:induction false} HelpOfUnknownName(t: seq<Entry>, name: string)
    requires forall e <- t :: e.name != name
    ensures HelpIn(t, name) == "unknown (" + name + ")"
  {
    UnknownHasNoDesc(t, name);
  }

  lemma {:induction false} UnknownHasNoDesc(t: seq<Entry>, name: string)
    requires forall e <- t :: e.name != name
    ensures FirstDesc(t, name) == []
  {
    if t != [] {
      assert t[0] in t;
      assert forall e <- t[1..] :: e in t;
      UnknownHasNoDesc(t[1..], name);
    }
  }
}
