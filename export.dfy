/**
 * Image export: the download file name chosen from the patient selection,
 * and the render request chosen from the extension.
 */
module Export {
  import opened Common

  datatype Patient = Patient(name: string)

  /** The download configuration: the extension as the text the user chose
      ("PNG", "JPEG", "SVG"), the transparency flag and the scale. */
  datatype ImageDownloadConfig = ImageDownloadConfig(extension: string, transparent: bool, scale: int)

  /** What getImage asks the renderer for. */
  datatype RenderRequest =
    | PngRequest(background: string, scale: int)
    | JpegRequest(jpegScale: int)
    | SvgRequest

  /** The downloaded payload: the renderer's image, or the SVG text wrapped as a plain-text blob. */
  datatype Image = Rendered(request: RenderRequest) | TextBlob(svg: RenderRequest)

  datatype Download = Download(filename: string, image: Image)

  /** The name before the extension. */
  function BaseName(selection: PatientSelection, patientA: Option<Patient>, patientB: Option<Patient>): string
  {
    match selection
    case GroupA => if patientA.Some? then patientA.value.name else "network.ts"
    case GroupB => if patientB.Some? then patientB.value.name else "network.ts"
    case Both => if patientA.Some? && patientB.Some? then patientA.value.name + "_vs_" + patientB.value.name
                 else "network.ts"
    case NoGroup => "Network"
  }

  function Filename(selection: PatientSelection, patientA: Option<Patient>, patientB: Option<Patient>,
                    extension: string): string
  {
    BaseName(selection, patientA, patientB) + "." + extension
  }

  /** getImage: PNG with background and scale, JPEG with scale, anything else SVG. */
  function GetImage(config: ImageDownloadConfig): RenderRequest
  {
    var background := if config.transparent then "transparent" else "white";
    if config.extension == "PNG" then PngRequest(background, config.scale)
    else if config.extension == "JPEG" then JpegRequest(config.scale)
    else SvgRequest
  }

  /** downloadImage without the browser side: the file name and the payload. */
  function DownloadImage(config: ImageDownloadConfig, patientA: Option<Patient>, patientB: Option<Patient>,
                         selection: PatientSelection): Download
  {
    var name := Filename(selection, patientA, patientB, config.extension);
    if config.extension == "SVG" then Download(name, TextBlob(GetImage(config)))
    else Download(name, Rendered(GetImage(config)))
  }

  /** The text after the last '.', or the whole text when it has none. */
  function AfterLastDot(s: string): string
    decreases |s|
  {
    if s == [] then []
    else if s[|s| - 1] == '.' then []
    else AfterLastDot(s[..|s| - 1]) + [s[|s| - 1]]
  }

  /** The name for each selection: a present patient's name, both names
      joined by "_vs_", "Network" for no group, and "network.ts" for a
      selected group whose patient is missing. */
  lemma FilenameCases(patientA: Option<Patient>, patientB: Option<Patient>, extension: string)
    ensures patientA.Some? ==> Filename(GroupA, patientA, patientB, extension) == patientA.value.name + "." + extension
    ensures patientB.Some? ==> Filename(GroupB, patientA, patientB, extension) == patientB.value.name + "." + extension
    ensures patientA.Some? && patientB.Some? ==>
              Filename(Both, patientA, patientB, extension) ==
              patientA.value.name + "_vs_" + patientB.value.name + "." + extension
    ensures Filename(NoGroup, patientA, patientB, extension) == "Network." + extension
    ensures patientA.None? ==> Filename(GroupA, patientA, patientB, extension) == "network.ts." + extension
    ensures patientB.None? ==> Filename(GroupB, patientA, patientB, extension) == "network.ts." + extension
    ensures patientA.None? || patientB.None? ==> Filename(Both, patientA, patientB, extension) == "network.ts." + extension
  {
  }

  /** A dot-free extension is recovered from the file name: whatever the
      name, the text after its last '.' is the extension. */
  lemma {:induction false} ExtensionRecovered(base: string, extension: string)
    requires forall i :: 0 <= i < |extension| ==> extension[i] != '.'
    ensures AfterLastDot(base + "." + extension) == extension
    decreases |extension|
  {
    var s := base + "." + extension;
    if extension == [] {
      assert s[|s| - 1] == '.';
    } else {
      var shorter := extension[..|extension| - 1];
      assert s[..|s| - 1] == base + "." + shorter;
      ExtensionRecovered(base, shorter);
      assert extension == shorter + [extension[|extension| - 1]];
    }
  }

  /** Every file name ends with "." and the extension. */
  lemma FilenameSuffix(selection: PatientSelection, patientA: Option<Patient>, patientB: Option<Patient>,
                       extension: string)
    ensures var f := Filename(selection, patientA, patientB, extension);
            |f| > |extension| && f[|f| - |extension| - 1..] == "." + extension
  {
  }

  /** PNG carries the background and the scale, JPEG only the scale; every
      other extension asks for SVG. */
  lemma GetImageDispatch(config: ImageDownloadConfig)
    ensures config.extension == "PNG" ==>
              GetImage(config) == PngRequest(if config.transparent then "transparent" else "white", config.scale)
    ensures config.extension == "JPEG" ==> GetImage(config) == JpegRequest(config.scale)
    ensures config.extension != "PNG" && config.extension != "JPEG" ==> GetImage(config) == SvgRequest
  {
  }

  /** The scale a render request carries, if any. */
  function RequestScale(r: RenderRequest): Option<int>
  {
    match r
    case PngRequest(_, scale) => Some(scale)
    case JpegRequest(scale) => Some(scale)
    case SvgRequest => None
  }

  /** The configured scale reaches the renderer for every raster export and
      for no SVG export; the background is transparent exactly when the
      configuration asks for it. */
  lemma GetImageKeepsScale(config: ImageDownloadConfig)
    ensures GetImage(config).SvgRequest? <==> config.extension != "PNG" && config.extension != "JPEG"
    ensures RequestScale(GetImage(config)) == if GetImage(config).SvgRequest? then None else Some(config.scale)
    ensures GetImage(config).PngRequest? ==> (GetImage(config).background == "transparent" <==> config.transparent)
  {
  }

  /** The payload depends on the configuration alone, not on the patients
      or the selection, which only name the file. */
  lemma DownloadImageIgnoresPatients(config: ImageDownloadConfig,
                                     patientA: Option<Patient>, patientB: Option<Patient>, selection: PatientSelection,
                                     otherA: Option<Patient>, otherB: Option<Patient>, otherSelection: PatientSelection)
    ensures DownloadImage(config, patientA, patientB, selection).image ==
            DownloadImage(config, otherA, otherB, otherSelection).image
  {
  }

  /** SVG is downloaded as wrapped text; PNG and JPEG as rendered images; any
      other extension also gets the SVG render, unwrapped. */
  lemma DownloadPayload(config: ImageDownloadConfig, patientA: Option<Patient>, patientB: Option<Patient>,
                        selection: PatientSelection)
    ensures var d := DownloadImage(config, patientA, patientB, selection);
            && d.filename == Filename(selection, patientA, patientB, config.extension)
            && (config.extension == "SVG" <==> d.image.TextBlob?)
            && (config.extension == "SVG" ==> d.image == TextBlob(SvgRequest))
            && (config.extension == "PNG" ==> d.image.Rendered? && d.image.request.PngRequest?)
            && (config.extension == "JPEG" ==> d.image.Rendered? && d.image.request.JpegRequest?)
            && (config.extension !in {"PNG", "JPEG", "SVG"} ==> d.image == Rendered(SvgRequest))
  {
  }

  lemma ComparisonExample()
    ensures Filename(Both, Some(Patient("P1")), Some(Patient("P2")), "PNG") == "P1_vs_P2.PNG"
  {
  }
}
