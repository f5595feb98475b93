/** Constants of MQTT V3.1 and of the code that serves it. */
module Protocol {
  import opened Bytes

  const CONNECT: Byte := 0x10
  const CONNACK: Byte := 0x20
  const PUBLISH: Byte := 0x30
  const PINGREQ: Byte := 0xC0
  const PINGRESP: Byte := 0xD0
  const DISCONNECT: Byte := 0xE0

  const MQTT_ERR_SUCCESS := 0
  const MQTT_ERR_PROTOCOL := 2
  const MQTT_ERR_INVAL := 3
  const MQTT_ERR_CONN_REFUSED := 5

  /** "MQIsdp", the protocol name that opens a V3.1 CONNECT (section 3.1). */
  const PROTOCOL_NAME: ByteString := [0x4D, 0x51, 0x49, 0x73, 0x64, 0x70]
}
