/** The language state of the viewer (src/i18n/i18n-manager.ts): the
    current language, the tables of texts filled on first use, and one
    shared manager. */
module I18n {
  import opened Wrappers

  /** The two languages, `zh-cn` and `en-us`. */
  datatype Lang = ZhCn | EnUs

  /** The language code of each language. */
  function Code(lang: Lang): (code: string)
    ensures code == "zh-cn" || code == "en-us"
  {
    match lang
    case ZhCn => "zh-cn"
    case EnUs => "en-us"
  }

  /** Every text key the viewer names: the keys of the default tables and
      the keys of the `LanguageKey` type of src/types/index.ts. */
  datatype TextKey =
    Loading
    | ErrorNoSrc
    | ErrorLoadFailed
    | Summary
    | TotalPackets
    | TotalBytes
    | ProtocolTypes
    | ProtocolDistribution
    | TopSources
    | TopDestinations
    | PacketList
    | Packet
    | SourceAddress
    | DestinationAddress
    | Length
    | Protocol
    | Bytes
    | ShowHex
    | ShowParsed
    | FormatToggle
    | HexViewTitle
    | NoPackets
    | Port
    | Flags
    | SrcMac
    | DstMac
    | EtherType
    | IpTtl
    | IpId
    | IpChecksum
    | TcpSeq
    | TcpAck
    | TcpWin
    | TcpChecksum
    | UdpLen
    | UdpChecksum
    | Fullscreen
    | ExitFullscreen
    | ButtonLoading

  /** The name of a key, as the tables spell it. */
  function Name(key: TextKey): string
  {
    match key
    case Loading => "loading"
    case ErrorNoSrc => "errorNoSrc"
    case ErrorLoadFailed => "errorLoadFailed"
    case Summary => "summary"
    case TotalPackets => "totalPackets"
    case TotalBytes => "totalBytes"
    case ProtocolTypes => "protocolTypes"
    case ProtocolDistribution => "protocolDistribution"
    case TopSources => "topSources"
    case TopDestinations => "topDestinations"
    case PacketList => "packetList"
    case Packet => "packet"
    case SourceAddress => "sourceAddress"
    case DestinationAddress => "destinationAddress"
    case Length => "length"
    case Protocol => "protocol"
    case Bytes => "bytes"
    case ShowHex => "showHex"
    case ShowParsed => "showParsed"
    case FormatToggle => "formatToggle"
    case HexViewTitle => "hexViewTitle"
    case NoPackets => "noPackets"
    case Port => "port"
    case Flags => "flags"
    case SrcMac => "srcMac"
    case DstMac => "dstMac"
    case EtherType => "etherType"
    case IpTtl => "ipTtl"
    case IpId => "ipId"
    case IpChecksum => "ipChecksum"
    case TcpSeq => "tcpSeq"
    case TcpAck => "tcpAck"
    case TcpWin => "tcpWin"
    case TcpChecksum => "tcpChecksum"
    case UdpLen => "udpLen"
    case UdpChecksum => "udpChecksum"
    case Fullscreen => "fullscreen"
    case ExitFullscreen => "exitFullscreen"
    case ButtonLoading => "buttonLoading"
  }

  /** The keys the `LanguageKey` type admits. */
  predicate IsLanguageKey(key: TextKey)
  {
    !(key.Packet? || key.FormatToggle?)
  }

  /** A table of texts: each key's text, or `None` (the `undefined` of a
      key the table does not define). */
  type Texts = TextKey -> Option<string>

  /** Whether a key has a text in the default tables. */
  predicate HasText(key: TextKey)
  {
    match key
    case Port | Flags | SrcMac | DstMac | EtherType | IpTtl | IpId | IpChecksum | TcpSeq | TcpAck | TcpWin
      | TcpChecksum | UdpLen | UdpChecksum | Fullscreen | ExitFullscreen | ButtonLoading => false
    case _ => true
  }

  /** The Chinese default table; `None` for a key it does not define. */
  function ZhCnText(key: TextKey): Option<string>
  {
    match key
    case Loading => Some("加载PCAP数据中...")
    case ErrorNoSrc => Some("未提供src属性")
    case ErrorLoadFailed => Some("加载PCAP文件失败")
    case Summary => Some("PCAP摘要")
    case TotalPackets => Some("总数据包数")
    case TotalBytes => Some("总字节数")
    case ProtocolTypes => Some("协议种类")
    case ProtocolDistribution => Some("协议分布")
    case TopSources => Some("活跃源地址")
    case TopDestinations => Some("活跃目的地址")
    case PacketList => Some("数据包列表")
    case Packet => Some("数据包")
    case SourceAddress => Some("源地址")
    case DestinationAddress => Some("目的地址")
    case Length => Some("长度")
    case Protocol => Some("协议")
    case Bytes => Some("字节")
    case ShowHex => Some("显示16进制")
    case ShowParsed => Some("显示解析")
    case FormatToggle => Some("格式切换")
    case HexViewTitle => Some("原始16进制视图")
    case NoPackets => Some("无数据包")
    case _ => None
  }

  /** The English default table; `None` for a key it does not define. */
  function EnUsText(key: TextKey): Option<string>
  {
    match key
    case Loading => Some("Loading PCAP data...")
    case ErrorNoSrc => Some("No src attribute provided")
    case ErrorLoadFailed => Some("Failed to load PCAP file")
    case Summary => Some("PCAP Summary")
    case TotalPackets => Some("Total Packets")
    case TotalBytes => Some("Total Bytes")
    case ProtocolTypes => Some("Protocol Types")
    case ProtocolDistribution => Some("Protocol Distribution")
    case TopSources => Some("Top Sources")
    case TopDestinations => Some("Top Destinations")
    case PacketList => Some("Packet List")
    case Packet => Some("Packet")
    case SourceAddress => Some("Source")
    case DestinationAddress => Some("Destination")
    case Length => Some("Length")
    case Protocol => Some("Protocol")
    case Bytes => Some("bytes")
    case ShowHex => Some("Show Hex")
    case ShowParsed => Some("Show Parsed")
    case FormatToggle => Some("Format Toggle")
    case HexViewTitle => Some("Raw Hex View")
    case NoPackets => Some("No packets")
    case _ => None
  }

  /** `getDefaultLanguages`: the built-in table of each language. */
  function DefaultTexts(lang: Lang): (texts: Texts)
    ensures forall key :: texts(key).Some? <==> HasText(key)
  {
    TextsDefined();
    match lang
    case ZhCn => ZhCnText
    case EnUs => EnUsText
  }

  /** The language `setLanguage` selects: English for exactly the code
      `en-us`, Chinese for any other string. */
  function SelectLanguage(code: string): (selected: Lang)
    ensures selected == EnUs <==> code == Code(EnUs)
  {
    if code == "en-us" then EnUs else ZhCn
  }

  /** The manager: the current language and the lazily filled tables. */
  class I18nManager {
    var languages: Option<Lang -> Texts>
    var currentLang: Lang

    /** The state every method keeps: the tables, once filled, are the
        default ones. */
    ghost predicate Valid()
      reads this
    {
      languages.Some? ==> languages.value == DefaultTexts
    }

    constructor()
      ensures Valid() && currentLang == ZhCn && languages.None?
    {
      languages := None;
      currentLang := ZhCn;
    }

    /** `loadLanguages`: fills the tables on first use; later calls return
        them without touching the manager. */
    method LoadLanguages() returns (loaded: Lang -> Texts)
      requires Valid()
      modifies this
      ensures Valid() && languages == Some(DefaultTexts) && loaded == DefaultTexts
      ensures currentLang == old(currentLang)
      ensures old(languages).Some? ==> unchanged(this)
    {
      if languages.Some? {
        return languages.value;
      }
      languages := Some(DefaultTexts);
      loaded := languages.value;
    }

    /** `setLanguage`. */
    method SetLanguage(code: string)
      requires Valid()
      modifies this
      ensures Valid() && currentLang == SelectLanguage(code) && languages == old(languages)
    {
      currentLang := if code == "en-us" then EnUs else ZhCn;
    }

    /** `getCurrentLanguage`. */
    method GetCurrentLanguage() returns (lang: Lang)
      ensures lang == currentLang
    {
      lang := currentLang;
    }

    /** `getAllTexts`: the current language's table, loading the tables first. */
    method GetAllTexts() returns (texts: Texts)
      requires Valid()
      modifies this
      ensures Valid() && languages == Some(DefaultTexts) && currentLang == old(currentLang)
      ensures texts == DefaultTexts(currentLang)
    {
      var loaded := LoadLanguages();
      texts := loaded(currentLang);
    }

    /** `getText`: the current language's text for `key`, loading the tables
        first; `None` exactly for the keys without a text. */
    method GetText(key: TextKey) returns (text: Option<string>)
      requires Valid()
      requires IsLanguageKey(key)
      modifies this
      ensures Valid() && languages == Some(DefaultTexts) && currentLang == old(currentLang)
      ensures text == DefaultTexts(currentLang)(key)
      ensures text.Some? <==> HasText(key)
    {
      var loaded := LoadLanguages();
      text := loaded(currentLang)(key);
    }
  }

  /** Where `getInstance` keeps the shared manager. */
  class Registry {
    var instance: Option<I18nManager>

    constructor()
      ensures instance.None?
    {
      instance := None;
    }

    /** `getInstance`: creates the manager on first use and returns the same
        one on every later call. */
    method GetInstance() returns (manager: I18nManager)
      modifies this
      ensures instance == Some(manager)
      ensures old(instance).Some? ==> manager == old(instance).value
      ensures old(instance).None? ==> fresh(manager) && manager.Valid() && manager.currentLang == ZhCn && manager.languages.None?
    {
      if instance.None? {
        var created := new I18nManager();
        instance := Some(created);
      }
      manager := instance.value;
    }
  }

  /** The Chinese table defines exactly the keys that have a text. */
  lemma ChineseDefined(key: TextKey)
    ensures ZhCnText(key).Some? <==> HasText(key)
  {
  }

  /** The English table defines exactly the keys that have a text. */
  lemma EnglishDefined(key: TextKey)
    ensures EnUsText(key).Some? <==> HasText(key)
  {
  }

  /** Both default tables define exactly the keys that have a text. */
  lemma TextsDefined()
    ensures forall key :: ZhCnText(key).Some? <==> HasText(key)
    ensures forall key :: EnUsText(key).Some? <==> HasText(key)
  {
    forall key
      ensures ZhCnText(key).Some? <==> HasText(key)
      ensures EnUsText(key).Some? <==> HasText(key)
    {
      ChineseDefined(key);
      EnglishDefined(key);
    }
  }

  /** Selecting a language from its own code selects it again, and selection
      is idempotent on codes. */
  lemma SelectCode(lang: Lang, code: string)
    ensures SelectLanguage(Code(lang)) == lang
    ensures SelectLanguage(Code(SelectLanguage(code))) == SelectLanguage(code)
  {
  }

  /** Seventeen keys of the `LanguageKey` type have no text in either table,
      so `getText` gives `undefined` for them, and two keys of the tables lie
      outside the type. */
  lemma UntranslatedKeys(lang: Lang)
    ensures forall key :: IsLanguageKey(key) && !HasText(key) ==> DefaultTexts(lang)(key).None?
    ensures IsLanguageKey(Port) && DefaultTexts(lang)(Port).None?
    ensures DefaultTexts(lang)(Packet).Some? && !IsLanguageKey(Packet)
    ensures DefaultTexts(lang)(FormatToggle).Some? && !IsLanguageKey(FormatToggle)
  {
  }
}
