/** The DeviceInfo and ObjectInfo datasets (section 5 of PIMA 15740:2000): field layouts and
    their round trips. */
module Structs {
  import opened Wrappers
  import opened Wire
  import opened Utf16
  import opened Codec

  const UINT16 := UInt(2)
  const UINT32 := UInt(4)

  // ---------- object formats ----------

  datatype ObjectFormat = NoFormat | ExifJpeg | FujiBackup | FujiRAF | Other(code: U16) {
    function Code(): U16 {
      match this
      case NoFormat => 0x0000
      case ExifJpeg => 0x3801
      case FujiBackup => 0x5000
      case FujiRAF => 0xF802
      case Other(code) => code
    }

    predicate Canonical() {
      Other? ==> code !in {0x0000, 0x3801, 0x5000, 0xF802}
    }
  }

  function FormatFromCode(code: U16): ObjectFormat {
    match code
    case 0x0000 => NoFormat
    case 0x3801 => ExifJpeg
    case 0x5000 => FujiBackup
    case 0xF802 => FujiRAF
    case other => Other(other)
  }

  lemma FormatRoundTrip(f: ObjectFormat, code: U16)
    ensures FormatFromCode(code).Code() == code && FormatFromCode(code).Canonical()
    ensures FormatFromCode(f.Code()) == f <==> f.Canonical()
  {}

  // ---------- DeviceInfo ----------

  datatype DeviceInfo = DeviceInfo(
    version: U16,
    vendorExId: U32,
    vendorExVersion: U16,
    vendorExtensionDesc: Text,
    functionalMode: U16,
    operationsSupported: seq<U16>,
    eventsSupported: seq<U16>,
    devicePropertiesSupported: seq<U16>,
    captureFormats: seq<U16>,
    imageFormats: seq<U16>,
    manufacturer: Text,
    model: Text,
    deviceVersion: Text,
    serialNumber: Text)
  {
    function Fields(): seq<Field> {
      [Num(version), Num(vendorExId), Num(vendorExVersion), Str(vendorExtensionDesc), Num(functionalMode),
       Codes(operationsSupported), Codes(eventsSupported), Codes(devicePropertiesSupported),
       Codes(captureFormats), Codes(imageFormats),
       Str(manufacturer), Str(model), Str(deviceVersion), Str(serialNumber)]
    }

    /** Strings of at most 254 UTF-16 units and arrays of at most a million codes. */
    predicate WithinLimits() {
      && StringFits(vendorExtensionDesc) && StringFits(manufacturer) && StringFits(model)
      && StringFits(deviceVersion) && StringFits(serialNumber)
      && |operationsSupported| <= 1_000_000 && |eventsSupported| <= 1_000_000
      && |devicePropertiesSupported| <= 1_000_000 && |captureFormats| <= 1_000_000
      && |imageFormats| <= 1_000_000
    }
  }

  const DEVICE_INFO: seq<FieldType> :=
    [UINT16, UINT32, UINT16, StringField, UINT16,
     CodesField, CodesField, CodesField, CodesField, CodesField,
     StringField, StringField, StringField, StringField]

  function DeviceInfoFrom(fs: seq<Field>): DeviceInfo
    requires FieldsFit(fs, DEVICE_INFO)
  {
    WidthBounds();
    FitsPointwise(fs, DEVICE_INFO);
    DeviceInfo(
      fs[0].v, fs[1].v, fs[2].v, fs[3].t, fs[4].v,
      AsCodes(fs[5].vs), AsCodes(fs[6].vs), AsCodes(fs[7].vs), AsCodes(fs[8].vs), AsCodes(fs[9].vs),
      fs[10].t, fs[11].t, fs[12].t, fs[13].t)
  }

  function AsCodes(vs: seq<nat>): (codes: seq<U16>)
    requires FitWidth(vs, 2)
    ensures codes == vs
  {
    WidthBounds();
    vs
  }

  /** `decode_exact::<DeviceInfo>`. */
  function DecodeDeviceInfo(s: Bytes): Option<DeviceInfo> {
    match DecodeFields(s, DEVICE_INFO)
    case None => None
    case Some(fs) =>
      EncodeDecodeFields(s, DEVICE_INFO);
      Some(DeviceInfoFrom(fs))
  }

  function EncodeDeviceInfo(d: DeviceInfo): Option<Bytes> {
    DeviceInfoTyped(d);
    EncodeFields(d.Fields(), DEVICE_INFO)
  }

  lemma FitsPointwise(fs: seq<Field>, ts: seq<FieldType>)
    requires FieldsFit(fs, ts)
    ensures forall i | 0 <= i < |ts| :: FieldFits(fs[i], ts[i])
  {}

  lemma DeviceInfoTyped(d: DeviceInfo)
    ensures AllTyped(d.Fields(), DEVICE_INFO)
  {}

  lemma DeviceInfoFits(d: DeviceInfo)
    ensures FieldsFit(d.Fields(), DEVICE_INFO) <==> d.WithinLimits()
  {
    DeviceInfoTyped(d);
    var fs := d.Fields();
    if FieldsFit(fs, DEVICE_INFO) {
      FitsPointwise(fs, DEVICE_INFO);
      assert FieldFits(fs[3], DEVICE_INFO[3]) && FieldFits(fs[5], DEVICE_INFO[5]) && FieldFits(fs[6], DEVICE_INFO[6]);
      assert FieldFits(fs[7], DEVICE_INFO[7]) && FieldFits(fs[8], DEVICE_INFO[8]) && FieldFits(fs[9], DEVICE_INFO[9]);
      assert FieldFits(fs[10], DEVICE_INFO[10]) && FieldFits(fs[11], DEVICE_INFO[11]);
      assert FieldFits(fs[12], DEVICE_INFO[12]) && FieldFits(fs[13], DEVICE_INFO[13]);
    }
  }

  /** Whatever encodes is read back exactly when it is within the limits. */
  lemma DeviceInfoRoundTrip(d: DeviceInfo)
    ensures d.WithinLimits() ==> EncodeDeviceInfo(d).Some?
    ensures EncodeDeviceInfo(d).Some? ==>
              DecodeDeviceInfo(EncodeDeviceInfo(d).value) == if d.WithinLimits() then Some(d) else None
  {
    DeviceInfoTyped(d);
    DeviceInfoFits(d);
    if d.WithinLimits() {
      FitsPrint(d.Fields(), DEVICE_INFO);
    }
    if EncodeDeviceInfo(d).Some? {
      DecodeEncodeFields(d.Fields(), DEVICE_INFO);
    }
  }

  lemma FitsPrint(fs: seq<Field>, ts: seq<FieldType>)
    requires FieldsFit(fs, ts)
    ensures AllPrintable(fs, ts)
  {}

  /** Every input that decodes re-encodes, to the same bytes exactly when no string in it used
      the one-unit empty form. */
  lemma DeviceInfoByteIdentity(s: Bytes)
    requires DecodeDeviceInfo(s).Some?
    ensures var d := DecodeDeviceInfo(s).value;
            && d.WithinLimits() && EncodeDeviceInfo(d).Some?
            && (EncodeDeviceInfo(d) == Some(s) <==> UnitForms(s, DEVICE_INFO) == 0)
  {
    EncodeDecodeFields(s, DEVICE_INFO);
    var fs := DecodeFields(s, DEVICE_INFO).value;
    FitsPointwise(fs, DEVICE_INFO);
    DeviceInfoFields(fs);
    DeviceInfoFits(DeviceInfoFrom(fs));
  }

  /** So byte identity fails for some input of a device info exactly when one of its strings is
      empty: that string may have come in the one-unit form. */
  lemma DeviceInfoIdentityFails(d: DeviceInfo)
    requires d.WithinLimits()
    ensures (exists s :: DecodeDeviceInfo(s) == Some(d) && EncodeDeviceInfo(d) != Some(s)) <==>
              || d.vendorExtensionDesc == [] || d.manufacturer == [] || d.model == []
              || d.deviceVersion == [] || d.serialNumber == []
  {
    DeviceInfoTyped(d);
    DeviceInfoFits(d);
    FitsPrint(d.Fields(), DEVICE_INFO);
    SecondSpellingIsExact(d.Fields(), DEVICE_INFO);
    forall s ensures DecodeDeviceInfo(s) == Some(d) <==> DecodeFields(s, DEVICE_INFO) == Some(d.Fields()) {
      DeviceInfoDecoded(s, d);
    }
    EmptyDeviceStrings(d);
  }

  lemma DeviceInfoDecoded(s: Bytes, d: DeviceInfo)
    requires FieldsFit(d.Fields(), DEVICE_INFO)
    ensures DecodeDeviceInfo(s) == Some(d) <==> DecodeFields(s, DEVICE_INFO) == Some(d.Fields())
  {
    if DecodeFields(s, DEVICE_INFO).Some? {
      EncodeDecodeFields(s, DEVICE_INFO);
      DeviceInfoFields(DecodeFields(s, DEVICE_INFO).value);
    }
  }

  lemma EmptyDeviceStrings(d: DeviceInfo)
    ensures (exists i | 0 <= i < |DEVICE_INFO| :: IsEmptyString(d.Fields()[i], DEVICE_INFO[i])) <==>
              || d.vendorExtensionDesc == [] || d.manufacturer == [] || d.model == []
              || d.deviceVersion == [] || d.serialNumber == []
  {
    var fs := d.Fields();
    assert IsEmptyString(fs[3], DEVICE_INFO[3]) <==> d.vendorExtensionDesc == [];
    assert IsEmptyString(fs[10], DEVICE_INFO[10]) <==> d.manufacturer == [];
    assert IsEmptyString(fs[11], DEVICE_INFO[11]) <==> d.model == [];
    assert IsEmptyString(fs[12], DEVICE_INFO[12]) <==> d.deviceVersion == [];
    assert IsEmptyString(fs[13], DEVICE_INFO[13]) <==> d.serialNumber == [];
  }

  lemma DeviceInfoFields(fs: seq<Field>)
    requires FieldsFit(fs, DEVICE_INFO)
    ensures DeviceInfoFrom(fs).Fields() == fs
  {}

  // ---------- ObjectInfo ----------

  datatype ObjectInfo = ObjectInfo(
    storageId: U32,
    objectFormat: ObjectFormat,
    protectionStatus: U16,
    compressedSize: U32,
    thumbFormat: U16,
    thumbCompressedSize: U32,
    thumbWidth: U32,
    thumbHeight: U32,
    imageWidth: U32,
    imageHeight: U32,
    imageBitDepth: U32,
    parentObject: U32,
    associationType: U16,
    associationDesc: U32,
    sequenceNumber: U32,
    filename: Text,
    dateCreated: Text,
    dateModified: Text,
    keywords: Text)
  {
    function Fields(): seq<Field> {
      [Num(storageId), Num(objectFormat.Code()), Num(protectionStatus), Num(compressedSize), Num(thumbFormat),
       Num(thumbCompressedSize), Num(thumbWidth), Num(thumbHeight), Num(imageWidth), Num(imageHeight),
       Num(imageBitDepth), Num(parentObject), Num(associationType), Num(associationDesc), Num(sequenceNumber),
       Str(filename), Str(dateCreated), Str(dateModified), Str(keywords)]
    }

    predicate WithinLimits() {
      StringFits(filename) && StringFits(dateCreated) && StringFits(dateModified) && StringFits(keywords)
    }
  }

  const OBJECT_INFO: seq<FieldType> :=
    [UINT32, UINT16, UINT16, UINT32, UINT16,
     UINT32, UINT32, UINT32, UINT32, UINT32,
     UINT32, UINT32, UINT16, UINT32, UINT32,
     StringField, StringField, StringField, StringField]

  function ObjectInfoFrom(fs: seq<Field>): ObjectInfo
    requires FieldsFit(fs, OBJECT_INFO)
  {
    WidthBounds();
    FitsPointwise(fs, OBJECT_INFO);
    ObjectInfo(
      fs[0].v, FormatFromCode(fs[1].v), fs[2].v, fs[3].v, fs[4].v,
      fs[5].v, fs[6].v, fs[7].v, fs[8].v, fs[9].v,
      fs[10].v, fs[11].v, fs[12].v, fs[13].v, fs[14].v,
      fs[15].t, fs[16].t, fs[17].t, fs[18].t)
  }

  function DecodeObjectInfo(s: Bytes): Option<ObjectInfo> {
    match DecodeFields(s, OBJECT_INFO)
    case None => None
    case Some(fs) =>
      EncodeDecodeFields(s, OBJECT_INFO);
      Some(ObjectInfoFrom(fs))
  }

  function EncodeObjectInfo(o: ObjectInfo): Option<Bytes> {
    ObjectInfoTyped(o);
    EncodeFields(o.Fields(), OBJECT_INFO)
  }

  lemma ObjectInfoTyped(o: ObjectInfo)
    ensures AllTyped(o.Fields(), OBJECT_INFO)
  {}

  /** An object description encodes exactly when its strings fit, and survives the wire exactly
      when its format is canonical as well. */
  lemma ObjectInfoRoundTrip(o: ObjectInfo)
    ensures EncodeObjectInfo(o).Some? <==> o.WithinLimits()
    ensures o.WithinLimits() ==>
              var r := DecodeObjectInfo(EncodeObjectInfo(o).value);
              && r == Some(o.(objectFormat := FormatFromCode(o.objectFormat.Code())))
              && (r == Some(o) <==> o.objectFormat.Canonical())
  {
    ObjectInfoTyped(o);
    ObjectInfoFits(o);
    hide FieldsFit, AllPrintable, AllTyped, ParseFields, PutFields;
    if o.WithinLimits() {
      DecodeEncodeFields(o.Fields(), OBJECT_INFO);
      ObjectInfoReadBack(o);
      FormatRoundTrip(o.objectFormat, o.objectFormat.Code());
    }
  }

  lemma ObjectInfoFits(o: ObjectInfo)
    ensures FieldsFit(o.Fields(), OBJECT_INFO) <==> o.WithinLimits()
    ensures AllPrintable(o.Fields(), OBJECT_INFO) <==> o.WithinLimits()
  {
    ObjectInfoTyped(o);
    var fs := o.Fields();
    if AllPrintable(fs, OBJECT_INFO) {
      assert Printable(fs[15], OBJECT_INFO[15]) && Printable(fs[16], OBJECT_INFO[16]);
      assert Printable(fs[17], OBJECT_INFO[17]) && Printable(fs[18], OBJECT_INFO[18]);
    }
    if FieldsFit(fs, OBJECT_INFO) { FitsPrint(fs, OBJECT_INFO); }
  }

  lemma ObjectInfoReadBack(o: ObjectInfo)
    requires o.WithinLimits() && FieldsFit(o.Fields(), OBJECT_INFO)
    ensures ObjectInfoFrom(o.Fields()) == o.(objectFormat := FormatFromCode(o.objectFormat.Code()))
  {}

  lemma ObjectInfoByteIdentity(s: Bytes)
    requires DecodeObjectInfo(s).Some?
    ensures var o := DecodeObjectInfo(s).value;
            && o.WithinLimits() && o.objectFormat.Canonical()
            && (EncodeObjectInfo(o) == Some(s) <==> UnitForms(s, OBJECT_INFO) == 0)
  {
    EncodeDecodeFields(s, OBJECT_INFO);
    var fs := DecodeFields(s, OBJECT_INFO).value;
    FitsPointwise(fs, OBJECT_INFO);
    WidthBounds();
    FormatRoundTrip(NoFormat, fs[1].v);
    ObjectInfoFields(fs);
  }

  lemma ObjectInfoFields(fs: seq<Field>)
    requires FieldsFit(fs, OBJECT_INFO)
    ensures ObjectInfoFrom(fs).Fields() == fs
  {}
}
