/** The rule form (RuleBuilder.tsx): four state cells that the handlers
    check and reset step by step. */
module RuleBuilder {
  import opened Types
  import AuditSpec
  import Registry

  /** Both text fields are filled: the guard of `handleSave` (line 31) and
      the enabling condition of the Save button (line 135). */
  predicate CanSave(name: string, instruction: string) {
    name != "" && instruction != ""
  }

  /** `refDocId || undefined`: the selector's "" option means no reference. */
  function NormalizeRef(refDocId: string): (r: Option<string>)
    ensures r.None? <==> refDocId == ""
    ensures r.Some? ==> r.value == refDocId
  {
    if refDocId == "" then None else Some(refDocId)
  }

  /** The selector value that shows a rule's reference; normalising it gives
      the reference back, so the form round-trips every rule it can save. */
  function SelectorValue(ref: Option<string>): string {
    match ref
    case None => ""
    case Some(id) => id
  }

  lemma NormalizeRoundTrip(refDocId: string, ref: Option<string>)
    requires ref.Some? ==> ref.value != ""
    ensures NormalizeRef(SelectorValue(ref)) == ref
    ensures SelectorValue(NormalizeRef(refDocId)) == refDocId
  {
  }

  /** A rule saved with the "" option is analysed without a template. */
  lemma NoReferenceNoTemplate(docs: seq<Document>, id: string, name: string, instruction: string)
    ensures AuditSpec.TemplateFor(docs, Rule(id, name, instruction, NormalizeRef(""))).None?
  {
  }

  /** The file picked in the upload dialog. */
  datatype FileInfo = FileInfo(name: string, mimeType: string, size: int)

  /** The document the upload's `onload` step builds (lines 48-56); `read`
      is the reader's result, empty text when there is none. */
  function TemplateDocument(file: FileInfo, id: string, read: Option<string>, uploadedAt: int): (d: Document)
    ensures d.id == id && d.source == Local && d.name == "TEMPLATE: " + file.name
    ensures d.mimeType == file.mimeType && d.size == file.size
    ensures read.None? ==> d.content == ""
    ensures read.Some? ==> d.content == read.value
    ensures d.uploadedAt == uploadedAt
  {
    Document(id, "TEMPLATE: " + file.name, file.mimeType,
             match read case None => "" case Some(text) => text,
             file.size, uploadedAt, Local)
  }

  class RuleForm {
    var showAdd: bool
    var name: string
    var instruction: string
    var refDocId: string

    /** The initial state (lines 24-27). */
    constructor ()
      ensures !showAdd && name == "" && instruction == "" && refDocId == ""
    {
      showAdd, name, instruction, refDocId := false, "", "", "";
    }

    /** "Create New Rule" opens the form (line 69). */
    method Open()
      modifies this
      ensures showAdd
      ensures name == old(name) && instruction == old(instruction) && refDocId == old(refDocId)
    {
      showAdd := true;
    }

    /** "Cancel" hides it and keeps what was typed (line 129). */
    method Cancel()
      modifies this
      ensures !showAdd
      ensures name == old(name) && instruction == old(instruction) && refDocId == old(refDocId)
    {
      showAdd := false;
    }

    /** The three inputs (lines 87, 107, 123). */
    method Edit(newName: string, newInstruction: string, newRef: string)
      modifies this
      ensures name == newName && instruction == newInstruction && refDocId == newRef
      ensures showAdd == old(showAdd)
    {
      name, instruction, refDocId := newName, newInstruction, newRef;
    }

    /** Whether the Save button is disabled (line 135). */
    function SaveDisabled(): (b: bool)
      reads this
    {
      !CanSave(name, instruction)
    }

    /** `handleSave` (lines 30-40) with `newId` for the random id: nothing
        happens unless both text fields are filled; otherwise the registry
        gains the rule with the typed name and instruction and the normalised
        reference, and the form is cleared and hidden. */
    method Save(reg: Registry.Registry, newId: string)
      modifies this, reg
      ensures old(SaveDisabled()) ==>
                reg.rules == old(reg.rules) &&
                showAdd == old(showAdd) && name == old(name) &&
                instruction == old(instruction) && refDocId == old(refDocId)
      ensures !old(SaveDisabled()) ==>
                reg.rules == old(reg.rules) + [Rule(newId, old(name), old(instruction), NormalizeRef(old(refDocId)))] &&
                !showAdd && name == "" && instruction == "" && refDocId == ""
      ensures reg.documents == old(reg.documents)
    {
      if !CanSave(name, instruction) {
        return;
      }
      reg.AddRule(Rule(newId, name, instruction, NormalizeRef(refDocId)));
      name, instruction, refDocId := "", "", "";
      showAdd := false;
    }

    /** The template upload (lines 42-61), its `onload` step taken at once:
        without a file or an upload handler nothing happens; otherwise the
        registry gains a local document named after the file and the form's
        reference selects it. */
    method UploadTemplate(file: Option<FileInfo>, reg: Registry.Registry?, newId: string,
                          read: Option<string>, uploadedAt: int)
      modifies this, reg
      ensures file.None? || reg == null ==> refDocId == old(refDocId)
      ensures reg != null && file.None? ==> reg.documents == old(reg.documents)
      ensures reg != null && file.Some? ==>
                reg.documents == old(reg.documents) + [TemplateDocument(file.value, newId, read, uploadedAt)] &&
                refDocId == newId
      ensures reg != null ==> reg.rules == old(reg.rules)
      ensures showAdd == old(showAdd) && name == old(name) && instruction == old(instruction)
    {
      if file.None? || reg == null {
        return;
      }
      var doc := TemplateDocument(file.value, newId, read, uploadedAt);
      reg.AddDocument(doc);
      refDocId := doc.id;
    }
  }
}
