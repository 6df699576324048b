/**
 * Compressed and uncompressed texture formats, both in specific form (the
 * exact compression scheme) and in generic form (channels, sRGB, signed,
 * floating point), and the conversions between the two.
 *
 * The protocol enumerations `Channels`, `DataType`, `Rgtc`, `Bptc`, `S3tc`
 * and `BlockSize` are declared elsewhere in the protocol crate; their
 * variants here are the ones the conversions match on, and the ones those
 * matches leave to a wildcard arm are gathered in a catch-all constructor.
 */
module TextureFormat {
  import Results

  /** DXT versions of the S3TC algorithm, with their numeric discriminants. */
  datatype DxtVersion = Dxt1 | Dxt3 | Dxt5
  {
    function Discriminant(): (d: nat)
      ensures d == 1 || d == 3 || d == 5
      ensures (d == 1) == (this == Dxt1) && (d == 5) == (this == Dxt5)
    {
      match this
      case Dxt1 => 1
      case Dxt3 => 3
      case Dxt5 => 5
    }
  }

  /** The version used when none is given: DXT5. */
  function DefaultDxtVersion(): (v: DxtVersion)
    ensures v.Discriminant() == 5
  {
    Dxt5
  }

  datatype Channels = R | Rg | Rgb | Rgba
  {
    /** The number of colour components. */
    function NumChannels(): (n: nat)
      ensures 1 <= n <= 4
      ensures this == R ==> n == 1
      ensures this == Rg ==> n == 2
      ensures this == Rgb ==> n == 3
      ensures this == Rgba ==> n == 4
    {
      match this
      case R => 1
      case Rg => 2
      case Rgb => 3
      case Rgba => 4
    }
  }

  /**
   * Storage type of uncompressed pixel data; `OtherDataType` stands for the
   * protocol's remaining variants.
   */
  datatype DataType = Byte | Short | Int | Float | Unspecified | OtherDataType(tag: nat)

  datatype RgtcFormat = Red | RedSigned | RgFormat | RgSigned

  /** `OtherBptc` stands for the protocol's variants matched only by a wildcard arm. */
  datatype BptcFormat = BptcRgba | RgbFloatSigned | RgbFloatUnsigned | OtherBptc(tag: nat)

  datatype S3tcFormat = Rgb1 | Rgba1 | Rgba3 | Rgba5

  /** An ASTC block size; the conversions never look inside it. */
  datatype BlockSize = BlockSize(tag: nat)

  datatype Uncompressed = Uncompressed(channels: Channels, dataType: DataType)

  datatype ProtocolError =
    | MismatchedTypes(found: DataType, expected: DataType)
    | InvalidFormat

  /** A non-sRGB format in symbolic form. */
  datatype Which =
    | None(uncompressed: Uncompressed)
    | Rgtc(rgtc: RgtcFormat)
    | Bptc(bptc: BptcFormat)
    | S3tc(s3tc: S3tcFormat)
    | Astc(blockSize: BlockSize)
  {
    /** The colour components the format represents. */
    function GetChannels(): (c: Channels)
      ensures None? ==> c == uncompressed.channels
      ensures Rgtc? ==> (c == R <==> rgtc in {Red, RedSigned}) && (c == R || c == Rg)
      ensures Bptc? ==> (c == Rgba <==> bptc == BptcRgba) && (c == Rgba || c == Rgb)
      ensures S3tc? ==> (c == Rgb <==> s3tc == Rgb1) && (c == Rgb || c == Rgba)
      ensures Astc? ==> c == Rgba
    {
      match this
      case None(u) => u.channels
      case Rgtc(x) =>
        (match x
         case Red | RedSigned => R
         case RgFormat | RgSigned => Rg)
      case Bptc(x) =>
        (match x
         case BptcRgba => Rgba
         case _ => Rgb)
      case S3tc(x) =>
        (match x
         case Rgb1 => Rgb
         case _ => Rgba)
      case Astc(_) => Rgba
    }

    /** Whether the format stores signed values. */
    predicate IsSigned()
      ensures IsSigned() <==>
        (Rgtc? && rgtc in {RedSigned, RgSigned})
        || (Bptc? && bptc == RgbFloatSigned)
        || (None? && uncompressed.dataType in {Byte, Short, Int, Float})
    {
      match this
      case Rgtc(x) => x == RedSigned || x == RgSigned
      case Bptc(x) => x == RgbFloatSigned
      case None(u) =>
        (match u.dataType
         case Byte | Short | Int | Float => true
         case _ => false)
      case _ => false
    }

    /** Whether the format stores floating-point values. */
    predicate IsFloat()
      ensures IsFloat() <==>
        (Bptc? && bptc in {RgbFloatSigned, RgbFloatUnsigned})
        || (None? && uncompressed.dataType == Float)
    {
      match this
      case Bptc(x) => x == RgbFloatSigned || x == RgbFloatUnsigned
      case None(u) => u.dataType == Float
      case _ => false
    }

    /** The storage type: the uncompressed one, or `Unspecified`. */
    function GetDataType(): (t: DataType)
      ensures !None? ==> t == Unspecified
      ensures None? ==> t == uncompressed.dataType
    {
      match this
      case None(u) => u.dataType
      case _ => Unspecified
    }
  }

  /** Format properties gathered until they are turned into a specific format. */
  datatype GenericFormat = GenericFormat(channels: Channels, srgb: bool, signed: bool, float: bool)
  {
    function NumChannels(): (n: nat)
      ensures n == channels.NumChannels()
      ensures 1 <= n <= 4
      ensures n == 4 <==> channels == Rgba
    {
      channels.NumChannels()
    }

    /**
     * An uncompressed format with these channels and sRGB flag; floating-point
     * properties demand the `Float` data type.
     */
    function AsNone(dataType: DataType): (r: Results.Result<SpecificFormat, ProtocolError>)
      ensures r.Err? <==> float && dataType != Float
      ensures r.Err? ==> r.error == MismatchedTypes(dataType, Float)
      ensures r.Ok? ==> r.value.which == None(Uncompressed(channels, dataType)) && r.value.srgb == srgb
      ensures r.Ok? ==> !r.value.IsCompressed() && r.value.which.GetDataType() == dataType
      ensures r.Ok? ==> r.value.IntoGeneric().channels == channels && r.value.IntoGeneric().srgb == srgb
      ensures r.Ok? && float ==> r.value.IntoGeneric().float && r.value.IntoGeneric().signed
    {
      if float && dataType != Float then Results.Err(MismatchedTypes(dataType, Float))
      else Results.Ok(SpecificFormat(None(Uncompressed(channels, dataType)), srgb))
    }

    /** An RGTC format; only one- and two-channel properties have one. */
    function AsRgtc(): (r: Results.Result<SpecificFormat, ProtocolError>)
      ensures r.Err? <==> channels == Rgb || channels == Rgba
      ensures r.Err? ==> r.error == InvalidFormat
      ensures r.Ok? ==> r.value.which.Rgtc? && !r.value.srgb
      ensures r.Ok? ==> r.value.IntoGeneric() == GenericFormat(channels, false, signed, false)
    {
      match channels
      case R => Results.Ok(SpecificFormat(Rgtc(if signed then RedSigned else Red), false))
      case Rg => Results.Ok(SpecificFormat(Rgtc(if signed then RgSigned else RgFormat), false))
      case _ => Results.Err(InvalidFormat)
    }

    /** An S3TC format of the given DXT version. */
    function AsS3tc(version: DxtVersion): (f: SpecificFormat)
      ensures f.srgb == srgb
      ensures version == Dxt1 ==> f.which == S3tc(if channels == Rgba then Rgba1 else Rgb1)
      ensures version == Dxt3 ==> f.which == S3tc(Rgba3)
      ensures version == Dxt5 ==> f.which == S3tc(Rgba5)
      ensures f.IntoGeneric().channels == Rgba <==> version != Dxt1 || channels == Rgba
      ensures !f.IntoGeneric().signed && !f.IntoGeneric().float
    {
      var s3tc := match version
        case Dxt1 => if channels == Rgba then Rgba1 else Rgb1
        case Dxt3 => Rgba3
        case Dxt5 => Rgba5;
      SpecificFormat(S3tc(s3tc), srgb)
    }

    /** A BPTC format: a floating-point one when `float` is set. */
    function AsBptc(): (f: SpecificFormat)
      ensures f.which.Bptc? && f.srgb == srgb
      ensures f.IntoGeneric().float == float
      ensures float ==> f.IntoGeneric().signed == signed && f.IntoGeneric().channels == Rgb
      ensures !float ==> f.IntoGeneric() == GenericFormat(Rgba, srgb, false, false)
    {
      var bptc := if float then (if signed then RgbFloatSigned else RgbFloatUnsigned) else BptcRgba;
      SpecificFormat(Bptc(bptc), srgb)
    }

    /** An ASTC format with the given block size. */
    function AsAstc(blockSize: BlockSize): (f: SpecificFormat)
      ensures f.which == Astc(blockSize) && f.srgb == srgb
      ensures f.IntoGeneric() == GenericFormat(Rgba, srgb, false, false)
    {
      SpecificFormat(Astc(blockSize), srgb)
    }
  }

  /** The properties assumed when none are given: four channels, no sRGB, unsigned, not float. */
  function DefaultGenericFormat(): (g: GenericFormat)
    ensures g.NumChannels() == 4 && !g.srgb && !g.signed && !g.float
  {
    GenericFormat(Rgba, false, false, false)
  }

  /** A specific format in symbolic form. */
  datatype SpecificFormat = SpecificFormat(which: Which, srgb: bool)
  {
    /** The generic properties of this format. */
    function IntoGeneric(): (g: GenericFormat)
      ensures g.srgb == srgb
      ensures g.float && !g.signed <==> which == Bptc(RgbFloatUnsigned)
      ensures g.float ==> g.channels == Rgb || which.None?
      ensures which.Rgtc? || which.S3tc? || which.Astc? ==> !g.float
    {
      GenericFormat(which.GetChannels(), srgb, which.IsSigned(), which.IsFloat())
    }

    function ToGeneric(): (g: GenericFormat)
      ensures g == IntoGeneric()
      ensures g.srgb == srgb
    {
      IntoGeneric()
    }

    /** Whether the format is a compressed one. */
    predicate IsCompressed()
      ensures IsCompressed() <==> !which.None?
      ensures IsCompressed() ==> which.GetDataType() == Unspecified
    {
      match which
      case None(_) => false
      case _ => true
    }
  }

  /** The DXT version an S3TC format belongs to. */
  function DxtVersionOf(s3tc: S3tcFormat): DxtVersion
  {
    match s3tc
    case Rgb1 | Rgba1 => Dxt1
    case Rgba3 => Dxt3
    case Rgba5 => Dxt5
  }

  /**
   * Turning an uncompressed format into its generic properties and back,
   * with its own data type, gives the same format.
   */
  lemma NoneRoundTrip(u: Uncompressed, srgb: bool)
    ensures SpecificFormat(None(u), srgb).IntoGeneric().AsNone(u.dataType) == Results.Ok(SpecificFormat(None(u), srgb))
  {
  }

  /** RGTC formats round-trip through their generic properties; RGTC has no sRGB form. */
  lemma RgtcRoundTrip(x: RgtcFormat)
    ensures SpecificFormat(Rgtc(x), false).IntoGeneric().AsRgtc() == Results.Ok(SpecificFormat(Rgtc(x), false))
  {
  }

  /** S3TC formats round-trip when rebuilt with their own DXT version. */
  lemma S3tcRoundTrip(x: S3tcFormat, srgb: bool)
    ensures SpecificFormat(S3tc(x), srgb).IntoGeneric().AsS3tc(DxtVersionOf(x)) == SpecificFormat(S3tc(x), srgb)
  {
  }

  /** The three BPTC formats the constructor can build round-trip. */
  lemma BptcRoundTrip(x: BptcFormat, srgb: bool)
    requires !x.OtherBptc?
    ensures SpecificFormat(Bptc(x), srgb).IntoGeneric().AsBptc() == SpecificFormat(Bptc(x), srgb)
  {
  }

  lemma AstcRoundTrip(b: BlockSize, srgb: bool)
    ensures SpecificFormat(Astc(b), srgb).IntoGeneric().AsAstc(b) == SpecificFormat(Astc(b), srgb)
  {
  }

  /** For uncompressed formats a floating-point format is always signed. */
  lemma UncompressedFloatIsSigned(f: SpecificFormat)
    requires !f.IsCompressed() && f.IntoGeneric().float
    ensures f.IntoGeneric().signed && f.which.GetDataType() == Float
  {
  }

  /**
   * Every specific format is one of the five constructors applied to its own
   * generic properties, except RGTC formats carrying sRGB and the BPTC
   * variants the constructor never builds.
   */
  lemma SpecificFromGeneric(f: SpecificFormat)
    requires f.which.Rgtc? ==> !f.srgb
    requires f.which.Bptc? ==> !f.which.bptc.OtherBptc?
    ensures match f.which
      case None(u) => f.IntoGeneric().AsNone(u.dataType) == Results.Ok(f)
      case Rgtc(_) => f.IntoGeneric().AsRgtc() == Results.Ok(f)
      case S3tc(x) => f.IntoGeneric().AsS3tc(DxtVersionOf(x)) == f
      case Bptc(_) => f.IntoGeneric().AsBptc() == f
      case Astc(b) => f.IntoGeneric().AsAstc(b) == f
  {
    match f.which
    case None(u) => NoneRoundTrip(u, f.srgb);
    case Rgtc(x) => RgtcRoundTrip(x);
    case S3tc(x) => S3tcRoundTrip(x, f.srgb);
    case Bptc(x) => BptcRoundTrip(x, f.srgb);
    case Astc(b) => AstcRoundTrip(b, f.srgb);
  }
}
