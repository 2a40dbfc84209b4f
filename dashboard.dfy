/** Dashboard.js: the document portal's state and the rules it applies to it. */
module Dashboard {
  import opened Wrappers
  import opened Text
  import opened Sequences
  import UriComponent

  /** A browser File as the file input or a drop hands it over. */
  datatype SelectedFile = SelectedFile(name: string, fileType: string, size: nat)

  /** A document of the listing, as parsed from the server's JSON. */
  datatype DocView = DocView(id: int, fileName: Option<string>, status: Option<string>)

  /** What getStatusStyle returns for a status. */
  datatype Badge = Badge(bg: string, color: string, text: string)

  const PDF := "application/pdf"
  const SIGNED_BADGE := Badge("#e6fffa", "#2c7a7b", "Signed")
  const REJECTED_BADGE := Badge("#fff5f5", "#c53030", "Rejected")
  const PENDING_BADGE := Badge("#fffaf0", "#b7791f", "Pending")

  /** getStatusStyle: compares the upper-cased status, so any spelling up to case gives the same badge. */
  function StatusBadge(status: Option<string>): (b: Badge)
    ensures b == SIGNED_BADGE <==> status.Some? && Upper(status.value) == "SIGNED"
    ensures b == REJECTED_BADGE <==> status.Some? && Upper(status.value) == "REJECTED"
    ensures b == PENDING_BADGE <==>
              status.None? || (Upper(status.value) != "SIGNED" && Upper(status.value) != "REJECTED")
  {
    if status.Some? && Upper(status.value) == "SIGNED" then SIGNED_BADGE
    else if status.Some? && Upper(status.value) == "REJECTED" then REJECTED_BADGE
    else PENDING_BADGE
  }

  lemma UpperIdempotent(s: string)
    ensures Upper(Upper(s)) == Upper(s)
  {
    assert forall i :: 0 <= i < |s| ==> Upper(Upper(s))[i] == Upper(s)[i];
  }

  /** The badge does not depend on the status's case. */
  lemma StatusBadgeIgnoresCase(s: string)
    ensures StatusBadge(Some(Upper(s))) == StatusBadge(Some(s))
  {
    UpperIdempotent(s);
  }

  /**
   * Sign and Reject are offered unless the status is exactly "SIGNED"; a
   * document without them always shows the Signed badge.
   */
  predicate OffersSignAndReject(d: DocView)
    ensures !OffersSignAndReject(d) ==> StatusBadge(d.status) == SIGNED_BADGE
  {
    assert Upper("SIGNED") == "SIGNED";
    d.status != Some("SIGNED")
  }

  /** The rows the table renders: every document whose status is not "DELETED", in order. */
  function Visible(docs: seq<DocView>): (r: seq<DocView>)
    ensures forall d :: d in r <==> d in docs && d.status != Some("DELETED")
    ensures forall d: DocView :: d.status != Some("DELETED") ==> multiset(r)[d] == multiset(docs)[d]
    ensures IsSubsequence(r, docs)
  {
    FilterIsSubsequence(docs, (d: DocView) => d.status != Some("DELETED"));
    Filter(docs, (d: DocView) => d.status != Some("DELETED"))
  }

  /** The local list after a delete: every document with that id removed, the others kept in order. */
  function WithoutId(docs: seq<DocView>, id: int): (r: seq<DocView>)
    ensures forall d :: d in r <==> d in docs && d.id != id
    ensures forall d: DocView :: d.id != id ==> multiset(r)[d] == multiset(docs)[d]
    ensures IsSubsequence(r, docs)
  {
    FilterIsSubsequence(docs, (d: DocView) => d.id != id);
    Filter(docs, (d: DocView) => d.id != id)
  }

  /** Removing an id twice removes nothing more. */
  lemma WithoutIdTwice(docs: seq<DocView>, id: int)
    ensures WithoutId(WithoutId(docs, id), id) == WithoutId(docs, id)
  {
    FilterIdempotent(docs, (d: DocView) => d.id != id);
  }

  /**
   * handleDownload's name: ".pdf" is added unless the name ends with it exactly
   * (case-sensitively); a null name makes `endsWith` throw, which the handler
   * catches, so no name comes out.
   */
  function ClientDownloadName(fileName: Option<string>): (r: Option<string>)
    ensures r.None? <==> fileName.None?
    ensures r.Some? ==> EndsWith(r.value, ".pdf")
    ensures fileName.Some? && EndsWith(fileName.value, ".pdf") ==> r == fileName
    ensures fileName.Some? && !EndsWith(fileName.value, ".pdf") ==> r == Some(fileName.value + ".pdf")
  {
    match fileName
    case None => None
    case Some(f) =>
      if EndsWith(f, ".pdf") then Some(f)
      else
        EndsWithAppended(f, ".pdf");
        Some(f + ".pdf")
  }

  lemma ClientDownloadNameIdempotent(f: string)
    ensures ClientDownloadName(ClientDownloadName(Some(f))) == ClientDownloadName(Some(f))
  {
  }

  /**
   * handleSign's request, for the name the dialog returned (None when it was
   * dismissed): sent only for a non-empty name, which goes URI-encoded into
   * the customName parameter.
   */
  function SignUrl(docId: int, preferredName: Option<string>): (url: Option<string>)
    ensures url.Some? <==> preferredName.Some? && preferredName.value != ""
    ensures url.Some? ==>
              url.value == "/documents/" + IntToString(docId) + "/sign?customName=" + UriComponent.Encode(preferredName.value)
  {
    if preferredName.Some? && preferredName.value != "" then
      Some("/documents/" + IntToString(docId) + "/sign?customName=" + UriComponent.Encode(preferredName.value))
    else None
  }

  /** The Dashboard component's state. */
  class Dashboard {
    var documents: seq<DocView>
    var file: Option<SelectedFile>
    var loading: bool

    constructor ()
      ensures documents == [] && file.None? && !loading
    {
      documents, file, loading := [], None, false;
    }

    /** validateAndSetFile: only a present file whose type is exactly "application/pdf" is kept. */
    method ValidateAndSetFile(selected: Option<SelectedFile>) returns (accepted: bool)
      modifies this
      ensures accepted <==> selected.Some? && selected.value.fileType == PDF
      ensures file == if accepted then selected else old(file)
      ensures documents == old(documents) && loading == old(loading)
    {
      if selected.Some? && selected.value.fileType == PDF {
        file := selected;
        accepted := true;
      } else {
        accepted := false;
      }
    }

    /**
     * handleUpload, with the POST's success and the answer to the refetch that
     * follows a successful upload as parameters: without a selected file nothing
     * is sent; otherwise the selected file is sent and loading ends false, and a
     * successful upload clears the selection and refreshes the list.
     */
    method HandleUpload(postSucceeds: bool, refetched: Option<seq<DocView>>) returns (sent: Option<SelectedFile>)
      modifies this
      ensures sent == old(file)
      ensures old(file).None? ==> file == old(file) && loading == old(loading) && documents == old(documents)
      ensures old(file).Some? && !postSucceeds ==> !loading && file == old(file) && documents == old(documents)
      ensures old(file).Some? && postSucceeds ==>
                && !loading && file.None?
                && documents == (if refetched.Some? then refetched.value else old(documents))
    {
      if file.None? {
        return None;
      }
      loading := true;
      sent := file;
      loading := false;
      if postSucceeds {
        file := None;
        FetchDocuments(refetched);
      }
    }

    /** fetchDocuments: a response replaces the list; a failed request leaves it. */
    method FetchDocuments(response: Option<seq<DocView>>)
      modifies this
      ensures documents == if response.Some? then response.value else old(documents)
      ensures file == old(file) && loading == old(loading)
    {
      if response.Some? {
        documents := response.value;
      }
    }

    /**
     * handleDelete, with the dialog's answer and the DELETE's success as
     * parameters: the request is sent only when confirmed, and the local list
     * loses that id only when it succeeded.
     */
    method HandleDelete(id: int, confirmed: bool, deleteSucceeds: bool) returns (sent: bool)
      modifies this
      ensures sent == confirmed
      ensures documents == if confirmed && deleteSucceeds then WithoutId(old(documents), id) else old(documents)
      ensures file == old(file) && loading == old(loading)
    {
      sent := confirmed;
      if confirmed && deleteSucceeds {
        documents := Filter(documents, (d: DocView) => d.id != id);
      }
    }
  }
}
