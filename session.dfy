/** The Streamlit session state that `main`, `validate` and `gerar_docs`
    read and update (main.py:30-38, 41-47, 50-61, 131-132, 159-168, 23). */
module App {
  import opened Optional
  import opened Docx
  import opened Batch

  /** The session-state keys the generation step uses; `None` is an absent
      key. The uploaded files are held already parsed. */
  class Session {
    var cont: Option<int>
    var success: Option<string>
    var hideButton: Option<bool>
    var sheet: Option<Table>
    var model: Option<Document>

    /** A new session: every key absent. */
    constructor ()
      ensures cont == None && success == None && hideButton == None
      ensures sheet == None && model == None
    {
      cont, success, hideButton := None, None, None;
      sheet, model := None, None;
    }

    /** The start of `main` (main.py:159-168): each marker is set to its
        initial value only when absent, so the counter keeps its value from
        one run of the script to the next. */
    method Initialize()
      modifies this
      ensures cont == if old(cont) == None then Some(0) else old(cont)
      ensures success == if old(success) == None then Some("") else old(success)
      ensures hideButton == if old(hideButton) == None then Some(false) else old(hideButton)
      ensures sheet == old(sheet) && model == old(model)
    {
      if cont == None {
        cont := Some(0);
      }
      if success == None {
        success := Some("");
      }
      if hideButton == None {
        hideButton := Some(false);
      }
    }

    /** `st.session_state.clear()` behind the restart button (main.py:23). */
    method Clear()
      modifies this
      ensures cont == None && success == None && hideButton == None
      ensures sheet == None && model == None
    {
      cont, success, hideButton := None, None, None;
      sheet, model := None, None;
    }

    /** `gerar_docs` (main.py:50-132): one document per row, the counter
        incremented once per row, each document saved under its row's file
        name, then one zip entry per saved file, then the success markers. */
    method GenerateDocuments(table: Table, template: Document) returns (archive: seq<Entry>)
      requires cont != None && WellFormed(table)
      modifies this
      ensures cont == Some(old(cont).value + |table.rows|)
      ensures success == Some("OK") && hideButton == Some(true)
      ensures sheet == old(sheet) && model == old(model)
      ensures IsArchiveOf(archive, Directory(table, template, |table.rows|))
    {
      var tempDir := new TempDir();
      for i := 0 to |table.rows|
        invariant cont == Some(old(cont).value + i)
        invariant tempDir.files == Directory(table, template, i)
        invariant success == old(success) && hideButton == old(hideButton)
        invariant sheet == old(sheet) && model == old(model)
      {
        var row := table.rows[i];
        cont := Some(cont.value + 1);
        var document := RenderRow(template, table.columns, row);
        var name := FileName(row[0]);
        tempDir.Save(name, document);
      }
      archive := BuildArchive(tempDir);
      success := Some("OK");
      hideButton := Some(true);
    }

    /** `validate` and `funcao_botao` (main.py:30-47): generate only when
        both the table and the template were uploaded; otherwise mark the
        missing input and produce nothing. */
    method Validate() returns (archive: Option<seq<Entry>>)
      requires cont != None
      requires sheet != None ==> WellFormed(sheet.value)
      modifies this
      ensures sheet == old(sheet) && model == old(model)
      ensures old(sheet) != None && old(model) != None ==>
                && archive != None
                && cont == Some(old(cont).value + |old(sheet).value.rows|)
                && success == Some("OK") && hideButton == Some(true)
                && IsArchiveOf(archive.value, Directory(old(sheet).value, old(model).value, |old(sheet).value.rows|))
      ensures old(sheet) == None || old(model) == None ==>
                && archive == None
                && cont == old(cont) && hideButton == old(hideButton)
                && success == Some("FALTA")
    {
      if sheet != None && model != None {
        var zip := GenerateDocuments(sheet.value, model.value);
        archive := Some(zip);
      } else {
        success := Some("FALTA");
        archive := None;
      }
    }
  }
}
