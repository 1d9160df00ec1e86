/**
 * The access-log table and its preprocessing. The uploaded records become a
 * table with the columns `fecha`, `IP`, `url` and `user_agent`;
 * `preprocess_data` then parses `fecha` and adds the columns `navegador`,
 * `sistema_operativo`, `dispositivo`, `es_estatico` and `pais`, and the step
 * after it adds `hora`. The table is a class whose methods assign whole
 * columns, as the source assigns DataFrame columns.
 */
module AccessLog {
  import opened Wrappers
  import opened Classifiers
  import opened StaticResources
  import opened Timestamps

  /** One entry of the uploaded JSON array; a `url` that is absent or not text is `None`. */
  datatype RawRecord = RawRecord(fecha: string, ip: string, url: Option<string>, userAgent: string)

  /** One row of the preprocessed table `df_processed`. */
  datatype Row = Row(
    fecha: Option<Stamp>,
    ip: string,
    url: Option<string>,
    userAgent: string,
    navegador: string,
    sistemaOperativo: string,
    dispositivo: string,
    esEstatico: bool,
    pais: string,
    hora: Option<nat>)

  /** The relations between the columns of every preprocessed row. */
  predicate WellFormed(row: Row) {
    && (row.fecha.Some? ==> ValidStamp(row.fecha.value))
    && (row.hora.Some? <==> row.fecha.Some?)
    && (row.hora.Some? ==> row.hora.value == row.fecha.value.hour && row.hora.value < 24)
    && row.navegador in {"Chrome", "Firefox", "Safari", "Edge", "Opera", "Other"}
    && row.sistemaOperativo in {"Windows", "Mac", "Linux", "Android", "iOS", "Other"}
    && row.dispositivo in {"Mobile", "Desktop"}
    && row.pais in {"Argentina", "Chile", "Brasil", "Colombia", "Uruguay", "Otros"}
    && (row.url.None? ==> !row.esEstatico)
  }

  /** What preprocessing makes of one record. */
  function Normalize(r: RawRecord): (row: Row)
    ensures WellFormed(row)
    ensures row.ip == r.ip && row.url == r.url && row.userAgent == r.userAgent
  {
    var fecha := ParseFecha(r.fecha);
    Row(fecha, r.ip, r.url, r.userAgent,
        ExtractBrowser(r.userAgent), ExtractOs(r.userAgent), ExtractDevice(r.userAgent),
        IsStatic(r.url), GeolocateIp(r.ip), Hora(fecha))
  }

  function NormalizeAll(records: seq<RawRecord>): (rows: seq<Row>)
    ensures |rows| == |records|
    ensures forall i :: 0 <= i < |rows| ==> WellFormed(rows[i])
  {
    seq(|records|, i requires 0 <= i < |records| => Normalize(records[i]))
  }

  /** The first sample record of the upload help text, once preprocessed. */
  lemma SampleRecord()
    ensures var row := Normalize(RawRecord("25-02-2024 10:30:45AM", "200.81.123.45", Some("/pagina-ejemplo"),
                                           "Mozilla/5.0 (Windows NT 10.0; Win64; x64) AppleWebKit/537.36"));
      row.hora == Some(10) && row.pais == "Argentina"
  {
    SampleFecha();
    ArgentinaPrefix("200.81.123.45");
  }

  class AccessFrame {
    // The columns read from the file.
    var fechaTexto: seq<string>
    var ip: seq<string>
    var url: seq<Option<string>>
    var userAgent: seq<string>
    // The columns preprocessing adds (empty until then); `fecha` is the parsed column.
    var fecha: seq<Option<Stamp>>
    var navegador: seq<string>
    var sistemaOperativo: seq<string>
    var dispositivo: seq<string>
    var esEstatico: seq<bool>
    var pais: seq<string>
    var hora: seq<Option<nat>>

    /** The columns read from the file have one cell per record. */
    ghost predicate Valid()
      reads this
    {
      |ip| == |fechaTexto| && |url| == |fechaTexto| && |userAgent| == |fechaTexto|
    }

    /** The records the table holds, row by row. */
    function Records(): (records: seq<RawRecord>)
      reads this
      requires Valid()
      ensures |records| == |fechaTexto|
    {
      seq(|fechaTexto|, i requires 0 <= i < |fechaTexto| && Valid() reads this =>
        RawRecord(fechaTexto[i], ip[i], url[i], userAgent[i]))
    }

    /** Every column `preprocess_data` adds holds, row by row, its classifier's value. */
    ghost predicate Preprocessed()
      reads this
    {
      && Valid()
      && |fecha| == |fechaTexto| && |navegador| == |fechaTexto| && |sistemaOperativo| == |fechaTexto|
      && |dispositivo| == |fechaTexto| && |esEstatico| == |fechaTexto| && |pais| == |fechaTexto|
      && forall i :: 0 <= i < |fechaTexto| ==>
           && fecha[i] == ParseFecha(fechaTexto[i])
           && navegador[i] == ExtractBrowser(userAgent[i])
           && sistemaOperativo[i] == ExtractOs(userAgent[i])
           && dispositivo[i] == ExtractDevice(userAgent[i])
           && esEstatico[i] == IsStatic(url[i])
           && pais[i] == GeolocateIp(ip[i])
    }

    /** Preprocessed, and `hora` holds the hour of every parsed `fecha`. */
    ghost predicate HoursDerived()
      reads this
    {
      Preprocessed() && |hora| == |fecha| && forall i :: 0 <= i < |fecha| ==> hora[i] == Hora(fecha[i])
    }

    /** The table read from the uploaded records, before any preprocessing. */
    constructor (records: seq<RawRecord>)
      ensures Valid() && Records() == records
      ensures fecha == [] && navegador == [] && sistemaOperativo == [] && dispositivo == []
      ensures esEstatico == [] && pais == [] && hora == []
    {
      fechaTexto := seq(|records|, i requires 0 <= i < |records| => records[i].fecha);
      ip := seq(|records|, i requires 0 <= i < |records| => records[i].ip);
      url := seq(|records|, i requires 0 <= i < |records| => records[i].url);
      userAgent := seq(|records|, i requires 0 <= i < |records| => records[i].userAgent);
      fecha, navegador, sistemaOperativo, dispositivo := [], [], [], [];
      esEstatico, pais, hora := [], [], [];
    }

    /** `preprocess_data`: parse `fecha` and add the five classified columns. */
    method Preprocess()
      requires Valid()
      modifies this
      ensures Preprocessed()
      ensures fechaTexto == old(fechaTexto) && ip == old(ip) && url == old(url) && userAgent == old(userAgent)
      ensures hora == old(hora)
    {
      var texts, agents, urls, ips := fechaTexto, userAgent, url, ip;
      var n := |texts|;
      fecha := seq(n, i requires 0 <= i < n => ParseFecha(texts[i]));
      navegador := seq(n, i requires 0 <= i < n => ExtractBrowser(agents[i]));
      sistemaOperativo := seq(n, i requires 0 <= i < n => ExtractOs(agents[i]));
      dispositivo := seq(n, i requires 0 <= i < n => ExtractDevice(agents[i]));
      esEstatico := seq(n, i requires 0 <= i < n => IsStatic(urls[i]));
      pais := seq(n, i requires 0 <= i < n => GeolocateIp(ips[i]));
    }

    /** `df_processed['hora'] = df_processed['fecha'].dt.hour`. */
    method DeriveHour()
      requires Preprocessed()
      modifies this`hora
      ensures HoursDerived()
    {
      var parsed := fecha;
      hora := seq(|parsed|, i requires 0 <= i < |parsed| => Hora(parsed[i]));
    }

    /** The preprocessed table, row by row. */
    function Rows(): (rows: seq<Row>)
      reads this
      requires HoursDerived()
      ensures rows == NormalizeAll(Records())
    {
      seq(|fechaTexto|, i requires 0 <= i < |fechaTexto| && HoursDerived() reads this =>
        Row(fecha[i], ip[i], url[i], userAgent[i], navegador[i], sistemaOperativo[i],
            dispositivo[i], esEstatico[i], pais[i], hora[i]))
    }
  }

  /** Lines 144-147: `df_processed = preprocess_data(df.copy())`, then the `hora` column. */
  method LoadAndPreprocess(records: seq<RawRecord>) returns (frame: AccessFrame)
    ensures fresh(frame) && frame.HoursDerived()
    ensures frame.Rows() == NormalizeAll(records)
  {
    frame := new AccessFrame(records);
    frame.Preprocess();
    frame.DeriveHour();
  }
}
