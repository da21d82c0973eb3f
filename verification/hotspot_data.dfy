/**
  The data record every hotspot carries: its identifier, description, kind,
  icon, and the link and file settings, with the defaults a new hotspot
  starts from.
*/
module HotspotData {
  import opened Options

  datatype UrlData = UrlData(
    url: string,
    target: string,
    popupWidth: int,
    popupHeight: int,
    aspectRatio: string)

  datatype FileData = FileData(
    sourcePath: string,
    display: string,
    popupWidth: int,
    popupHeight: int,
    aspectRatio: string)

  datatype Data = Data(
    id: Option<string>,
    description: string,
    hotspotType: string,
    iconType: string,
    urlData: UrlData,
    fileData: FileData)

  /** The record a new hotspot starts from: no identifier, a file hotspot
      shown embedded, link `#` opened embedded, 800 x 600 pop-ups, free aspect. */
  function DefaultData(): Data {
    Data(None, "", "file", "default",
         UrlData("#", "embed", 800, 600, "free"),
         FileData("", "embed", 800, 600, "free"))
  }
}
