/**
 * Where a client rule meets the server rule for the same thing: the upload
 * type check, the role strings, the download name, the signature name and
 * the status shown for a stored document.
 */
module EndToEnd {
  import opened Wrappers
  import opened Text
  import opened Entity
  import opened Service
  import opened Controller
  import Dashboard
  import UriComponent

  /** The multipart part the browser sends for a file: an unknown type goes out as application/octet-stream. */
  function AsMultipart(f: Dashboard.SelectedFile): (m: MultipartFile)
    ensures m.size == f.size && m.originalFilename == Some(f.name)
  {
    MultipartFile(f.size, Some(f.name), Some(if f.fileType == "" then "application/octet-stream" else f.fileType))
  }

  /** A file the client accepts passes the server's type check; only an empty one is still refused. */
  lemma ClientAcceptedUpload(f: Dashboard.SelectedFile)
    requires f.fileType == Dashboard.PDF
    ensures UploadRejection(AsMultipart(f)).None? <==> f.size > 0
    ensures f.size == 0 ==> UploadRejection(AsMultipart(f)) == Some("Please select a file to upload.")
  {
  }

  /** The client's PDF check and the server's content-type check are the same condition on non-empty files. */
  lemma TypeChecksAgree(f: Dashboard.SelectedFile)
    requires f.size > 0
    ensures UploadRejection(AsMultipart(f)).None? <==> f.fileType == Dashboard.PDF
  {
  }

  /** Wherever Role.valueOf succeeds, AuthController's case-insensitive parse gives the same role. */
  lemma RoleParsersAgree(role: Option<string>)
    requires RequestedRole(role).Some?
    ensures TargetRole(role) == RequestedRole(role).value
  {
    if role == Some("USER") {
      assert !CharEqualsIgnoreCase('U', 'A');
    }
  }

  /** "admin": AuthController registers an ADMIN, UserService throws. */
  lemma LowerCaseAdmin()
    ensures TargetRole(Some("admin")) == ADMIN
    ensures RequestedRole(Some("admin")).None?
  {
    assert EqualsIgnoreCase("admin", "ADMIN") by {
      forall i | 0 <= i < 5
        ensures CharEqualsIgnoreCase("admin"[i], "ADMIN"[i])
      {
        assert UpperChar("admin"[i]) == "ADMIN"[i];
      }
    }
  }

  /** The lower case of ".pdf" is ".pdf", so a name ending in ".pdf" ends in it after lower-casing too. */
  lemma EndsWithPdfLower(f: string)
    requires EndsWith(f, ".pdf")
    ensures EndsWith(Lower(f), ".pdf")
  {
    assert Lower(f)[|f| - 4..] == Lower(f[|f| - 4..]);
  }

  /**
   * The server's download name (Content-Disposition) and the client's download
   * attribute agree exactly when the name ends in ".pdf" or does not end in it
   * in any case ("a.PDF" is "a.PDF" to the server and "a.PDF.pdf" to the client).
   */
  lemma DownloadNamesAgree(f: string)
    ensures DownloadFileName(f) == Dashboard.ClientDownloadName(Some(f)).value
            <==> EndsWith(f, ".pdf") || !EndsWith(Lower(f), ".pdf")
  {
    if EndsWith(f, ".pdf") {
      EndsWithPdfLower(f);
    } else if EndsWith(Lower(f), ".pdf") {
      assert |f + ".pdf"| != |f|;
    }
  }

  lemma DownloadNameMismatch()
    ensures DownloadFileName("a.PDF") == "a.PDF"
    ensures Dashboard.ClientDownloadName(Some("a.PDF")) == Some("a.PDF.pdf")
  {
    assert Lower("a.PDF") == "a.pdf";
    assert !EndsWith("a.PDF", ".pdf") by {
      assert "a.PDF"[1..] != ".pdf";
    }
    assert "a.PDF" + ".pdf" == "a.PDF.pdf";
  }

  /**
   * The name typed in the sign dialog comes back from the customName parameter
   * and is the one printed on the document.
   */
  lemma SignNameRoundTrip(docId: int, name: string, username: string)
    requires name != ""
    ensures Dashboard.SignUrl(docId, Some(name)) ==
              Some("/documents/" + IntToString(docId) + "/sign?customName=" + UriComponent.Encode(name))
    ensures UriComponent.Decode(UriComponent.Encode(name)) == Some(name)
    ensures NameToPrint(UriComponent.Decode(UriComponent.Encode(name)), username) == name
  {
    UriComponent.DecodeEncode(name);
  }

  /** What the listing shows for a stored document: its id, name and status name. */
  function ViewOf(d: DocumentRow): (v: Dashboard.DocView)
    requires d.id.Some?
    ensures v.id == d.id.value && v.fileName == d.fileName
    ensures v.status.Some? <==> d.status.Some?
  {
    Dashboard.DocView(d.id.value, d.fileName, if d.status.Some? then Some(StatusName(d.status.value)) else None)
  }

  /**
   * For the statuses the server stores: only SIGNED shows the Signed badge
   * and hides Sign/Reject, REJECTED shows Rejected, and a soft-deleted or a
   * PENDING document shows Pending.
   */
  lemma StoredStatusOnClient(d: DocumentRow)
    requires d.id.Some? && d.status.Some?
    ensures Dashboard.StatusBadge(ViewOf(d).status) == Dashboard.SIGNED_BADGE <==> d.status == Some(SIGNED)
    ensures Dashboard.StatusBadge(ViewOf(d).status) == Dashboard.REJECTED_BADGE <==> d.status == Some(REJECTED)
    ensures Dashboard.OffersSignAndReject(ViewOf(d)) <==> d.status != Some(SIGNED)
  {
    var up := Upper(StatusName(d.status.value));
    match d.status.value
    case PENDING => assert up == "PENDING";
    case SIGNED => assert up == "SIGNED";
    case REJECTED => assert up == "REJECTED";
    case DELETED => assert up == "DELETED";
  }

  /** A soft-deleted document is never rendered, whatever list it arrives in. */
  lemma DeletedNotVisible(d: DocumentRow, views: seq<Dashboard.DocView>)
    requires d.id.Some? && d.status == Some(DELETED)
    ensures ViewOf(d) !in Dashboard.Visible(views)
  {
  }
}
