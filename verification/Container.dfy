/** Container headers of the USB transport (section 7 of the USB Still Image Capture Device
    Definition, revision 1.0) and their operation and response codes. */
module Container {
  import opened Wrappers
  import opened Wire

  datatype CommandCode =
    | GetDeviceInfo
    | OpenSession
    | CloseSession
    | GetObjectHandles
    | GetObjectInfo
    | GetObject
    | DeleteObject
    | SendObjectInfo
    | SendObject
    | GetDevicePropDesc
    | GetDevicePropValue
    | SetDevicePropValue
    | FujiSendObjectInfo
    | FujiSendObject
  {
    function Code(): U16 {
      match this
      case GetDeviceInfo => 0x1001
      case OpenSession => 0x1002
      case CloseSession => 0x1003
      case GetObjectHandles => 0x1007
      case GetObjectInfo => 0x1008
      case GetObject => 0x1009
      case DeleteObject => 0x100B
      case SendObjectInfo => 0x100C
      case SendObject => 0x100D
      case GetDevicePropDesc => 0x1014
      case GetDevicePropValue => 0x1015
      case SetDevicePropValue => 0x1016
      case FujiSendObjectInfo => 0x900C
      case FujiSendObject => 0x900D
    }
  }

  datatype ResponseCode =
    | Undefined
    | Success
    | GeneralError
    | SessionNotOpen
    | InvalidTransactionId
    | OperationNotSupported
    | ParameterNotSupported
    | IncompleteTransfer
    | InvalidStorageId
    | InvalidObjectHandle
    | DevicePropNotSupported
    | InvalidObjectFormatCode
    | StoreFull
    | ObjectWriteProtected
    | StoreReadOnly
    | AccessDenied
    | NoThumbnailPresent
    | SelfTestFailed
    | PartialDeletion
    | StoreNotAvailable
    | SpecificationByFormatUnsupported
    | NoValidObjectInfo
    | InvalidCodeFormat
    | UnknownVendorCode
    | CaptureAlreadyTerminated
    | DeviceBusy
    | InvalidParentObject
    | InvalidDevicePropFormat
    | InvalidDevicePropValue
    | InvalidParameter
    | SessionAlreadyOpen
    | TransactionCancelled
    | SpecificationOfDestinationUnsupported
  {
    function Code(): U16 {
      match this
      case Undefined => 0x2000
      case Success => 0x2001
      case GeneralError => 0x2002
      case SessionNotOpen => 0x2003
      case InvalidTransactionId => 0x2004
      case OperationNotSupported => 0x2005
      case ParameterNotSupported => 0x2006
      case IncompleteTransfer => 0x2007
      case InvalidStorageId => 0x2008
      case InvalidObjectHandle => 0x2009
      case DevicePropNotSupported => 0x200A
      case InvalidObjectFormatCode => 0x200B
      case StoreFull => 0x200C
      case ObjectWriteProtected => 0x200D
      case StoreReadOnly => 0x200E
      case AccessDenied => 0x200F
      case NoThumbnailPresent => 0x2010
      case SelfTestFailed => 0x2011
      case PartialDeletion => 0x2012
      case StoreNotAvailable => 0x2013
      case SpecificationByFormatUnsupported => 0x2014
      case NoValidObjectInfo => 0x2015
      case InvalidCodeFormat => 0x2016
      case UnknownVendorCode => 0x2017
      case CaptureAlreadyTerminated => 0x2018
      case DeviceBusy => 0x2019
      case InvalidParentObject => 0x201A
      case InvalidDevicePropFormat => 0x201B
      case InvalidDevicePropValue => 0x201C
      case InvalidParameter => 0x201D
      case SessionAlreadyOpen => 0x201E
      case TransactionCancelled => 0x201F
      case SpecificationOfDestinationUnsupported => 0x2020
    }
  }

  function CommandFromCode(code: U16): Option<CommandCode> {
    match code
    case 0x1001 => Some(CommandCode.GetDeviceInfo)
    case 0x1002 => Some(CommandCode.OpenSession)
    case 0x1003 => Some(CommandCode.CloseSession)
    case 0x1007 => Some(CommandCode.GetObjectHandles)
    case 0x1008 => Some(CommandCode.GetObjectInfo)
    case 0x1009 => Some(CommandCode.GetObject)
    case 0x100B => Some(CommandCode.DeleteObject)
    case 0x100C => Some(CommandCode.SendObjectInfo)
    case 0x100D => Some(CommandCode.SendObject)
    case 0x1014 => Some(CommandCode.GetDevicePropDesc)
    case 0x1015 => Some(CommandCode.GetDevicePropValue)
    case 0x1016 => Some(CommandCode.SetDevicePropValue)
    case 0x900C => Some(CommandCode.FujiSendObjectInfo)
    case 0x900D => Some(CommandCode.FujiSendObject)
    case _ => None
  }

  function ResponseFromCode(code: U16): Option<ResponseCode> {
    match code
    case 0x2000 => Some(ResponseCode.Undefined)
    case 0x2001 => Some(ResponseCode.Success)
    case 0x2002 => Some(ResponseCode.GeneralError)
    case 0x2003 => Some(ResponseCode.SessionNotOpen)
    case 0x2004 => Some(ResponseCode.InvalidTransactionId)
    case 0x2005 => Some(ResponseCode.OperationNotSupported)
    case 0x2006 => Some(ResponseCode.ParameterNotSupported)
    case 0x2007 => Some(ResponseCode.IncompleteTransfer)
    case 0x2008 => Some(ResponseCode.InvalidStorageId)
    case 0x2009 => Some(ResponseCode.InvalidObjectHandle)
    case 0x200A => Some(ResponseCode.DevicePropNotSupported)
    case 0x200B => Some(ResponseCode.InvalidObjectFormatCode)
    case 0x200C => Some(ResponseCode.StoreFull)
    case 0x200D => Some(ResponseCode.ObjectWriteProtected)
    case 0x200E => Some(ResponseCode.StoreReadOnly)
    case 0x200F => Some(ResponseCode.AccessDenied)
    case 0x2010 => Some(ResponseCode.NoThumbnailPresent)
    case 0x2011 => Some(ResponseCode.SelfTestFailed)
    case 0x2012 => Some(ResponseCode.PartialDeletion)
    case 0x2013 => Some(ResponseCode.StoreNotAvailable)
    case 0x2014 => Some(ResponseCode.SpecificationByFormatUnsupported)
    case 0x2015 => Some(ResponseCode.NoValidObjectInfo)
    case 0x2016 => Some(ResponseCode.InvalidCodeFormat)
    case 0x2017 => Some(ResponseCode.UnknownVendorCode)
    case 0x2018 => Some(ResponseCode.CaptureAlreadyTerminated)
    case 0x2019 => Some(ResponseCode.DeviceBusy)
    case 0x201A => Some(ResponseCode.InvalidParentObject)
    case 0x201B => Some(ResponseCode.InvalidDevicePropFormat)
    case 0x201C => Some(ResponseCode.InvalidDevicePropValue)
    case 0x201D => Some(ResponseCode.InvalidParameter)
    case 0x201E => Some(ResponseCode.SessionAlreadyOpen)
    case 0x201F => Some(ResponseCode.TransactionCancelled)
    case 0x2020 => Some(ResponseCode.SpecificationOfDestinationUnsupported)
    case _ => None
  }

  datatype ContainerCode = Command(command: CommandCode) | Response(response: ResponseCode) | Unknown(code: U16) {
    function Code(): U16 {
      match this
      case Command(c) => c.Code()
      case Response(r) => r.Code()
      case Unknown(code) => code
    }

    /** `Unknown` is meant for codes that neither table lists. */
    predicate Canonical() {
      Unknown? ==> CommandFromCode(code).None? && ResponseFromCode(code).None?
    }
  }

  function ContainerFromCode(code: U16): ContainerCode {
    match CommandFromCode(code)
    case Some(c) => Command(c)
    case None =>
      match ResponseFromCode(code)
      case Some(r) => Response(r)
      case None => Unknown(code)
  }

  lemma CommandRoundTrip(c: CommandCode)
    ensures CommandFromCode(c.Code()) == Some(c)
  {}

  lemma ResponseRoundTrip(r: ResponseCode)
    ensures ResponseFromCode(r.Code()) == Some(r) && CommandFromCode(r.Code()).None?
  {}

  lemma CommandCodeSurvives(code: U16)
    ensures CommandFromCode(code).Some? ==> CommandFromCode(code).value.Code() == code
  {}

  lemma ResponseCodeSurvives(code: U16)
    ensures ResponseFromCode(code).Some? ==> ResponseFromCode(code).value.Code() == code
  {}

  /** Every code survives. */
  lemma CodeSurvives(code: U16)
    ensures ContainerFromCode(code).Code() == code && ContainerFromCode(code).Canonical()
  {
    CommandCodeSurvives(code);
    ResponseCodeSurvives(code);
    hide CommandFromCode, ResponseFromCode;
  }

  /** A value survives exactly when it is canonical. */
  lemma CodeRoundTrip(c: ContainerCode)
    ensures ContainerFromCode(c.Code()) == c <==> c.Canonical()
  {
    match c
    case Command(cmd) => CommandRoundTrip(cmd);
    case Response(r) => ResponseRoundTrip(r);
    case Unknown(_) =>
  }

  // ---------- what a command does ----------

  datatype CommandRisk = ReadOnly | SessionControl | StateChanging

  /** `command_risk`. */
  function Risk(code: CommandCode): CommandRisk {
    match code
    case GetDeviceInfo => ReadOnly
    case GetObjectHandles => ReadOnly
    case GetObject => ReadOnly
    case GetObjectInfo => ReadOnly
    case GetDevicePropDesc => ReadOnly
    case GetDevicePropValue => ReadOnly
    case OpenSession => SessionControl
    case CloseSession => SessionControl
    case DeleteObject => StateChanging
    case SendObjectInfo => StateChanging
    case SendObject => StateChanging
    case SetDevicePropValue => StateChanging
    case FujiSendObjectInfo => StateChanging
    case FujiSendObject => StateChanging
  }

  /** The same by wire code: which operations only read, which manage the session, and which
      change the camera's state and so need a permit. */
  lemma RiskByCode(code: CommandCode)
    ensures Risk(code).ReadOnly? <==> code.Code() in {0x1001, 0x1007, 0x1008, 0x1009, 0x1014, 0x1015}
    ensures Risk(code).SessionControl? <==> code.Code() in {0x1002, 0x1003}
    ensures Risk(code).StateChanging? <==> code.Code() in {0x100B, 0x100C, 0x100D, 0x1016, 0x900C, 0x900D}
  {}

  // ---------- headers ----------

  datatype ContainerType = CommandBlock | DataBlock | ResponseBlock | EventBlock {
    function Code(): U16 {
      match this
      case CommandBlock => 1
      case DataBlock => 2
      case ResponseBlock => 3
      case EventBlock => 4
    }
  }

  function TypeFromCode(code: nat): Option<ContainerType> {
    match code
    case 1 => Some(CommandBlock)
    case 2 => Some(DataBlock)
    case 3 => Some(ResponseBlock)
    case 4 => Some(EventBlock)
    case _ => None
  }

  const HEADER_SIZE: nat := 12

  datatype ContainerInfo = ContainerInfo(totalLen: U32, kind: ContainerType, code: ContainerCode, transactionId: U32) {
    /** `checked_sub`: a declared length below the header size is malformed. */
    function PayloadLen(): Option<nat> {
      if totalLen < HEADER_SIZE then None else Some(totalLen - HEADER_SIZE)
    }
  }

  function NewInfo(kind: ContainerType, code: CommandCode, transactionId: U32, payloadLen: nat): Option<ContainerInfo> {
    if HEADER_SIZE + payloadLen >= 0x1_0000_0000 then None
    else Some(ContainerInfo(HEADER_SIZE + payloadLen, kind, Command(code), transactionId))
  }

  function PutHeader(info: ContainerInfo, rest: Bytes): Bytes {
    PutLe(info.totalLen, 4, PutLe(info.kind.Code(), 2, PutLe(info.code.Code(), 2, PutLe(info.transactionId, 4, rest))))
  }

  function ParseHeader(s: Bytes): Parsed<ContainerInfo> {
    WidthBounds();
    var (totalLen, s1) :- ParseLe(s, 4);
    var (kindCode, s2) :- ParseLe(s1, 2);
    match TypeFromCode(kindCode)
    case None => Fail
    case Some(kind) =>
      var (code, s3) :- ParseLe(s2, 2);
      var (transactionId, s4) :- ParseLe(s3, 4);
      Done(ContainerInfo(totalLen, kind, ContainerFromCode(code), transactionId), s4)
  }

  /** Twelve bytes, field by field: the whole length, the kind as 1 to 4 for commands, data,
      responses and events, the operation or response code, the transaction id. */
  lemma HeaderOnTheWire(info: ContainerInfo, rest: Bytes)
    ensures exists kind | 1 <= kind <= 4 ::
              && (kind == 1 <==> info.kind.CommandBlock?) && (kind == 2 <==> info.kind.DataBlock?)
              && (kind == 3 <==> info.kind.ResponseBlock?)
              && PutHeader(info, rest) ==
                   LeBytes(info.totalLen, 4) + LeBytes(kind, 2) + LeBytes(info.code.Code(), 2) + LeBytes(info.transactionId, 4) + rest
  {
    hide LeBytes, ContainerCode.Code;
    assert PutHeader(info, rest) ==
      LeBytes(info.totalLen, 4) + LeBytes(info.kind.Code(), 2) + LeBytes(info.code.Code(), 2) + LeBytes(info.transactionId, 4) + rest;
    assert 1 <= info.kind.Code() <= 4;
  }

  /** The one response code that means success. */
  lemma SuccessByCode(code: U16)
    ensures ContainerFromCode(code) == Response(ResponseCode.Success) <==> code == 0x2001
  {
    CodeSurvives(code);
    CodeRoundTrip(Response(ResponseCode.Success));
    hide CommandFromCode, ResponseFromCode, ContainerFromCode;
  }

  lemma ParsePutHeader(info: ContainerInfo, rest: Bytes)
    requires info.code.Canonical()
    ensures ParseHeader(PutHeader(info, rest)) == Done(info, rest)
    ensures |PutHeader(info, rest)| == 12 + |rest|
  {
    WidthBounds();
    var s4 := PutLe(info.transactionId, 4, rest);
    var s3 := PutLe(info.code.Code(), 2, s4);
    var s2 := PutLe(info.kind.Code(), 2, s3);
    ParsePutLe(info.totalLen, 4, s2);
    ParsePutLe(info.kind.Code(), 2, s3);
    ParsePutLe(info.code.Code(), 2, s4);
    ParsePutLe(info.transactionId, 4, rest);
    CodeRoundTrip(info.code);
  }

  lemma PutParseHeader(s: Bytes)
    requires ParseHeader(s).Done?
    ensures var p := ParseHeader(s);
            p.value.code.Canonical() && PutHeader(p.value, p.rest) == s && |p.rest| == |s| - 12
  {
    hide ParseLe, PutLe, TypeFromCode, ContainerFromCode, ContainerCode.Code, ContainerCode.Canonical, ContainerType.Code;
    WidthBounds();
    PutParseLe(s, 4);
    var s1 := ParseLe(s, 4).rest;
    PutParseLe(s1, 2);
    var s2 := ParseLe(s1, 2).rest;
    PutParseLe(s2, 2);
    var s3 := ParseLe(s2, 2).rest;
    PutParseLe(s3, 4);
    CodeSurvives(ParseLe(s2, 2).value);
    TypeCodeSurvives(ParseLe(s1, 2).value);
  }

  lemma TypeCodeSurvives(code: nat)
    ensures TypeFromCode(code).Some? ==> TypeFromCode(code).value.Code() == code
  {}

  /** A header splits off its own twelve bytes. */
  lemma HeaderIsPrefix(info: ContainerInfo, rest: Bytes)
    ensures PutHeader(info, rest) == PutHeader(info, []) + rest
    ensures |PutHeader(info, [])| == 12
  {}

  // ---------- whole containers ----------

  /** The bytes of one container on the wire. */
  function ContainerBytes(info: ContainerInfo, payload: Bytes): Bytes {
    PutHeader(info, []) + payload
  }

  /** A header that declares the payload's length and can be read back. */
  predicate WellFormed(info: ContainerInfo, payload: Bytes) {
    info.code.Canonical() && info.totalLen == HEADER_SIZE + |payload|
  }

  /** No container is a prefix of another: the bytes at the front of a stream determine the
      container, its payload and where the next one starts. */
  lemma ContainersArePrefixFree(
      info: ContainerInfo, payload: Bytes, rest: Bytes,
      info': ContainerInfo, payload': Bytes, rest': Bytes)
    requires WellFormed(info, payload) && WellFormed(info', payload')
    requires ContainerBytes(info, payload) + rest == ContainerBytes(info', payload') + rest'
    ensures info == info' && payload == payload' && rest == rest'
  {
    HeaderIsPrefix(info, payload + rest);
    HeaderIsPrefix(info', payload' + rest');
    assert ContainerBytes(info, payload) + rest == PutHeader(info, payload + rest);
    assert ContainerBytes(info', payload') + rest' == PutHeader(info', payload' + rest');
    ParsePutHeader(info, payload + rest);
    ParsePutHeader(info', payload' + rest');
    assert (payload + rest)[..|payload|] == payload && (payload + rest)[|payload|..] == rest;
    assert (payload' + rest')[..|payload'|] == payload' && (payload' + rest')[|payload'|..] == rest';
  }
}
