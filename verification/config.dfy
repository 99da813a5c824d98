/** The two configuration records of the application, with their defaults. */
module Config {

  /** Everything that decides how the mark looks and where it goes.
      `fontRatio` is the fraction of the canvas's shorter side used when
      `adaptiveFont` is on; `opacity` is a percentage; `rotation` is degrees. */
  datatype WatermarkConfig = WatermarkConfig(
    text: string,
    fontFamily: string,
    fontSize: int,
    adaptiveFont: bool,
    fontRatio: real,
    color: string,
    opacity: int,
    count: int,
    rotation: int)

  /** Where and under which name the result is written. `nameRule` is one of
      "original", "numbered", "timestamp"; any other value behaves like
      "original". */
  datatype OutputConfig = OutputConfig(
    outputDir: string,
    outputFormat: string,
    jpgQuality: int,
    nameRule: string,
    suffix: string)

  const DefaultWatermark: WatermarkConfig :=
    WatermarkConfig("公司水印", "Microsoft YaHei", 36, true, 0.04, "#FF0000", 70, 1, 45)

  const DefaultOutput: OutputConfig :=
    OutputConfig("", "JPG", 90, "suffix", "_watermarked")

  /** The record the engine builds before drawing: every field the caller
      chose is kept except the font size, which becomes `fontSize`, while the
      two fields the constructor call leaves out fall back to their defaults. */
  function WithFontSize(cfg: WatermarkConfig, fontSize: int): (r: WatermarkConfig)
    ensures r.fontSize == fontSize
    ensures r.text == cfg.text && r.fontFamily == cfg.fontFamily && r.color == cfg.color
    ensures r.opacity == cfg.opacity && r.count == cfg.count && r.rotation == cfg.rotation
    ensures r.adaptiveFont == DefaultWatermark.adaptiveFont
    ensures r.fontRatio == DefaultWatermark.fontRatio
  {
    WatermarkConfig(cfg.text, cfg.fontFamily, fontSize, DefaultWatermark.adaptiveFont,
                    DefaultWatermark.fontRatio, cfg.color, cfg.opacity, cfg.count, cfg.rotation)
  }
}
