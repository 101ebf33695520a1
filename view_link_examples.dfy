/** The two Drive links of a file `X`: the `drivesdk` viewer link becomes the
    embeddable preview link, and the `sharing` link is left as it is. */
module ViewLinkExamples {
  import opened ViewLink

  const FileBase: string := "https://drive.google.com/file/d/X"

  lemma FileBaseNoQuery()
    ensures NoQuery(FileBase)
  {
  }

  lemma DriveSdkLinkRewritten()
    ensures ReplaceAll(FileBase + "/view?usp=drivesdk", ViewPattern, PreviewText) == FileBase + "/preview"
  {
    FileBaseNoQuery();
    RewriteDriveSdkLink(FileBase);
  }

  lemma SharingLinkKept()
    ensures ReplaceAll(FileBase + "/view?usp=sharing", ViewPattern, PreviewText) == FileBase + "/view?usp=sharing"
  {
    FileBaseNoQuery();
    KeepSharingLink(FileBase);
  }
}
